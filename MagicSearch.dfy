/** The Horizon overrides of the faceted search widget (`magicOverrides`): the active
    selections, the working facet catalog, the prompt, the menu flags, and their
    synchronisation with the page address. */
module MagicSearch {
  import opened Wrappers
  import opened Strings
  import opened QueryCodec
  import opened Browser
  import opened BasicTable

  /** A label as the widget stores it: a string, an array of strings, or undefined. */
  datatype Display = Undefined | Text(s: string) | Parts(parts: seq<string>)

  /** One value of an enumerated facet. */
  datatype FacetOption = FacetOption(key: string, optionLabel: Display)

  /** A catalog facet. Without `options` the facet takes a free-form value; `singleton`
      is `value.singleton === true`. */
  datatype Facet = Facet(name: string, facetLabel: string, options: Option<seq<FacetOption>>, singleton: bool)

  /** One active selection: its `name` (`facet=value`, or `text=value` for free text) and
      its two-part `label`. */
  datatype Entry = Entry(name: string, facetLabel: string, valueLabel: Display)

  /** The notifications the widget emits upwards. */
  datatype Event = CheckFacets(selections: seq<Entry>) | TextRemoved | SearchUpdated(query: string)

  // ---- the catalog helpers of the base widget ----

  /** `deleteFacetEntirely`: the catalog without the facets called `name`. */
  function DeleteFacetEntirely(catalog: seq<Facet>, name: string): (r: seq<Facet>)
    ensures forall i :: 0 <= i < |r| ==> r[i].name != name && r[i] in catalog
    ensures forall f :: f in catalog && f.name != name ==> f in r
  {
    if |catalog| == 0 then []
    else (if catalog[0].name == name then [] else [catalog[0]]) + DeleteFacetEntirely(catalog[1..], name)
  }

  /** The options of a facet without those whose key is `key`. */
  function WithoutOption(options: seq<FacetOption>, key: string): (r: seq<FacetOption>)
    ensures forall i :: 0 <= i < |r| ==> r[i].key != key && r[i] in options
    ensures forall o :: o in options && o.key != key ==> o in r
  {
    if |options| == 0 then []
    else (if options[0].key == key then [] else [options[0]]) + WithoutOption(options[1..], key)
  }

  /** One facet after `deleteFacetSelection(name, key)`. */
  function NarrowFacet(f: Facet, name: string, key: string): Facet
  {
    if f.name == name && f.options.Some? then f.(options := Some(WithoutOption(f.options.value, key))) else f
  }

  /** `deleteFacetSelection`: the facets called `name` lose their option `key`; the rest of
      the catalog is untouched. */
  function DeleteFacetSelection(catalog: seq<Facet>, name: string, key: string): (r: seq<Facet>)
    ensures |r| == |catalog|
    ensures forall i :: 0 <= i < |r| ==> r[i] == NarrowFacet(catalog[i], name, key)
  {
    seq(|catalog|, i requires 0 <= i < |catalog| => NarrowFacet(catalog[i], name, key))
  }

  // ---- reading one fragment of the address ----

  /** `fragment.split('=')[0]`. */
  function FragmentKey(fragment: string): string
  {
    Split(fragment, '=')[0]
  }

  /** `fragment.split('=')[1]`, undefined when the fragment has no `=`. */
  function FragmentValue(fragment: string): Option<string>
  {
    var parts := Split(fragment, '=');
    if |parts| > 1 then Some(parts[1]) else None
  }

  /** A value as a label: the string, or undefined. */
  function ValueLabel(v: Option<string>): Display
  {
    if v.Some? then Text(v.value) else Undefined
  }

  /** A value in a JavaScript string concatenation: undefined reads "undefined". */
  function JsText(v: Option<string>): string
  {
    if v.Some? then v.value else "undefined"
  }

  /** The fragments `initFacets` reads: `window.location.search` without one leading `?`,
      split on `&`. */
  function UrlFragments(u: Url): (r: seq<string>)
    ensures |r| >= 1
  {
    var search := Search(u);
    Split(if StartsWith(search, "?") then search[1..] else search, '&')
  }

  /** `initialFacets.length > 1 || initialFacets[0].length > 0`. */
  predicate ClearsPrompt(fragments: seq<string>)
    requires |fragments| >= 1
  {
    |fragments| > 1 || |fragments[0]| > 0
  }

  // ---- reconciliation, the specification of initFacets ----

  /** The selections and the working catalog while `initFacets` runs. */
  datatype Scan = Scan(selections: seq<Entry>, catalog: seq<Facet>)

  /** The walk over the options of `facet` (as they were when the walk began) for one
      fragment: every option whose key is the fragment's value adds a selection and
      removes the facet (singleton) or just that option. */
  function OptionsStep(options: seq<FacetOption>, facet: Facet, fragment: string, st: Scan): Scan
    decreases |options|
  {
    if |options| == 0 then st
    else
      var prev := OptionsStep(options[..|options| - 1], facet, fragment, st);
      var option := options[|options| - 1];
      if Some(option.key) == FragmentValue(fragment) then
        Scan(prev.selections + [Entry(fragment, facet.facetLabel, option.optionLabel)],
             if facet.singleton then DeleteFacetEntirely(prev.catalog, FragmentKey(fragment))
             else DeleteFacetSelection(prev.catalog, FragmentKey(fragment), option.key))
      else prev
  }

  /** One facet of the walk over the catalog: a facet named like the fragment's key adds
      the fragment whole (free-form facet, then removed) or walks its options. */
  function FacetStep(facet: Facet, fragment: string, st: Scan): Scan
  {
    if facet.name != FragmentKey(fragment) then st
    else if facet.options.None? then
      Scan(st.selections + [Entry(fragment, facet.facetLabel, ValueLabel(FragmentValue(fragment)))],
           DeleteFacetEntirely(st.catalog, FragmentKey(fragment)))
    else OptionsStep(facet.options.value, facet, fragment, st)
  }

  /** The walk over the catalog as it was when the walk began. */
  function FacetsStep(snapshot: seq<Facet>, fragment: string, st: Scan): Scan
    decreases |snapshot|
  {
    if |snapshot| == 0 then st
    else FacetStep(snapshot[|snapshot| - 1], fragment, FacetsStep(snapshot[..|snapshot| - 1], fragment, st))
  }

  /** One fragment of the address: `free` adds a free-text selection and leaves the
      catalog alone; any other key walks the catalog. */
  function FragmentStep(st: Scan, fragment: string, textLabel: string): Scan
  {
    if FragmentKey(fragment) == "free" then
      var v := FragmentValue(fragment);
      Scan(st.selections + [Entry("text=" + JsText(v), textLabel, ValueLabel(v))], st.catalog)
    else FacetsStep(st.catalog, fragment, st)
  }

  /** The fragments in address order, starting from `st`. */
  function Reconcile(fragments: seq<string>, st: Scan, textLabel: string): Scan
    decreases |fragments|
  {
    if |fragments| == 0 then st
    else FragmentStep(Reconcile(fragments[..|fragments| - 1], st, textLabel), fragments[|fragments| - 1], textLabel)
  }

  // ---- catalog well-formedness and narrowing ----

  /** Facet names are unique. */
  predicate UniqueNames(catalog: seq<Facet>)
  {
    forall i, j :: 0 <= i < j < |catalog| ==> catalog[i].name != catalog[j].name
  }

  /** Option keys are unique within an option list. */
  predicate UniqueOptionKeys(options: seq<FacetOption>)
  {
    forall i, j :: 0 <= i < j < |options| ==> options[i].key != options[j].key
  }

  /** A catalog as the widget is configured with: unique facet names, and unique option
      keys within each facet. */
  predicate WellFormed(catalog: seq<Facet>)
  {
    && UniqueNames(catalog)
    && forall i :: 0 <= i < |catalog| && catalog[i].options.Some? ==> UniqueOptionKeys(catalog[i].options.value)
  }

  /** The facet is taken whole by one selection: a free-form or a singleton facet. */
  predicate Whole(f: Facet)
  {
    f.options.None? || f.singleton
  }

  /** The catalog still offers `key` with value `v`: a facet named `key` that is free-form
      or has an option keyed `v`. */
  predicate Offers(catalog: seq<Facet>, key: string, v: Option<string>)
  {
    exists i :: 0 <= i < |catalog| && catalog[i].name == key && (catalog[i].options.None? || exists o :: o in catalog[i].options.value && Some(o.key) == v)
  }

  /** The facet named `key`, when the catalog has one. */
  predicate Names(catalog: seq<Facet>, key: string)
  {
    exists f :: f in catalog && f.name == key
  }

  // ---- the catalog helpers keep a catalog well-formed and only ever narrow it ----

  /** A facet in front of a catalog with unique names keeps them unique when its name is new. */
  lemma ConsUniqueNames(h: Facet, rest: seq<Facet>)
    requires UniqueNames(rest)
    requires forall j :: 0 <= j < |rest| ==> h.name != rest[j].name
    ensures UniqueNames([h] + rest)
  {
    var r := [h] + rest;
    forall a, b | 0 <= a < b < |r| ensures r[a].name != r[b].name {
      assert r[b] == rest[b - 1];
      if a > 0 {
        assert r[a] == rest[a - 1];
      }
    }
  }

  /** Removing a facet keeps facet names unique. */
  lemma {:induction false} DeleteFacetEntirelyUnique(catalog: seq<Facet>, name: string)
    requires UniqueNames(catalog)
    ensures UniqueNames(DeleteFacetEntirely(catalog, name))
    decreases |catalog|
  {
    if |catalog| > 0 {
      var tail := catalog[1..];
      var rest := DeleteFacetEntirely(tail, name);
      assert UniqueNames(tail) by {
        forall a, b | 0 <= a < b < |tail| ensures tail[a].name != tail[b].name {
          assert tail[a] == catalog[a + 1] && tail[b] == catalog[b + 1];
        }
      }
      DeleteFacetEntirelyUnique(tail, name);
      if catalog[0].name != name {
        forall j | 0 <= j < |rest| ensures catalog[0].name != rest[j].name {
          var k :| 0 <= k < |tail| && tail[k] == rest[j];
          assert catalog[k + 1] == rest[j];
        }
        ConsUniqueNames(catalog[0], rest);
      }
    }
  }

  /** Removing a facet keeps the catalog well-formed, and no facet of that name is left. */
  lemma DeleteFacetEntirelyWellFormed(catalog: seq<Facet>, name: string)
    requires WellFormed(catalog)
    ensures WellFormed(DeleteFacetEntirely(catalog, name))
    ensures !Names(DeleteFacetEntirely(catalog, name), name)
  {
    var r := DeleteFacetEntirely(catalog, name);
    DeleteFacetEntirelyUnique(catalog, name);
    forall i | 0 <= i < |r| && r[i].options.Some? ensures UniqueOptionKeys(r[i].options.value) {
      var k :| 0 <= k < |catalog| && catalog[k] == r[i];
    }
  }

  /** Removing an option keeps the remaining option keys unique. */
  lemma {:induction false} WithoutOptionUnique(options: seq<FacetOption>, key: string)
    requires UniqueOptionKeys(options)
    ensures UniqueOptionKeys(WithoutOption(options, key))
    decreases |options|
  {
    if |options| > 0 {
      var tail := options[1..];
      var rest := WithoutOption(tail, key);
      assert UniqueOptionKeys(tail) by {
        forall a, b | 0 <= a < b < |tail| ensures tail[a].key != tail[b].key {
          assert tail[a] == options[a + 1] && tail[b] == options[b + 1];
        }
      }
      WithoutOptionUnique(tail, key);
      if options[0].key != key {
        var r := [options[0]] + rest;
        forall j | 0 <= j < |rest| ensures options[0].key != rest[j].key {
          var k :| 0 <= k < |tail| && tail[k] == rest[j];
          assert options[k + 1] == rest[j];
        }
        forall a, b | 0 <= a < b < |r| ensures r[a].key != r[b].key {
          assert r[b] == rest[b - 1];
          if a > 0 {
            assert r[a] == rest[a - 1];
          }
        }
      }
    }
  }

  /** Removing one option of a facet keeps the catalog well-formed. */
  lemma DeleteFacetSelectionWellFormed(catalog: seq<Facet>, name: string, key: string)
    requires WellFormed(catalog)
    ensures WellFormed(DeleteFacetSelection(catalog, name, key))
  {
    var r := DeleteFacetSelection(catalog, name, key);
    forall i | 0 <= i < |r| && r[i].options.Some? ensures UniqueOptionKeys(r[i].options.value) {
      if catalog[i].name == name && catalog[i].options.Some? {
        WithoutOptionUnique(catalog[i].options.value, key);
      }
    }
  }

  /** What the catalog offers after removing a facet, it offered before, under another name. */
  lemma DeleteFacetEntirelyOffers(catalog: seq<Facet>, name: string, k: string, v: Option<string>)
    requires Offers(DeleteFacetEntirely(catalog, name), k, v)
    ensures Offers(catalog, k, v) && k != name
  {
    var r := DeleteFacetEntirely(catalog, name);
    var i :| 0 <= i < |r| && r[i].name == k && (r[i].options.None? || exists o :: o in r[i].options.value && Some(o.key) == v);
    var j :| 0 <= j < |catalog| && catalog[j] == r[i];
  }

  /** What the catalog offers after removing an option, it offered before; the removed
      option itself is offered no more when every facet of that name has options. */
  lemma DeleteFacetSelectionOffers(catalog: seq<Facet>, name: string, key: string, k: string, v: Option<string>)
    ensures Offers(DeleteFacetSelection(catalog, name, key), k, v) ==> Offers(catalog, k, v)
    ensures (forall f :: f in catalog && f.name == name ==> f.options.Some?) ==>
      !Offers(DeleteFacetSelection(catalog, name, key), name, Some(key))
  {
    var r := DeleteFacetSelection(catalog, name, key);
    if Offers(r, k, v) {
      var i :| 0 <= i < |r| && r[i].name == k && (r[i].options.None? || exists o :: o in r[i].options.value && Some(o.key) == v);
      assert catalog[i].name == k;
      if r[i].options.Some? {
        var o :| o in r[i].options.value && Some(o.key) == v;
        if catalog[i].name == name && catalog[i].options.Some? {
          assert o in catalog[i].options.value;
        }
      }
    }
    if forall f :: f in catalog && f.name == name ==> f.options.Some? {
      forall i | 0 <= i < |r| && r[i].name == name
        ensures r[i].options.Some? && forall o :: o in r[i].options.value ==> o.key != key
      {
        assert catalog[i] in catalog;
      }
    }
  }

  // ---- one fragment, without the walks ----

  /** The position of the first facet called `key`. */
  function FacetIndex(catalog: seq<Facet>, key: string): (r: Option<nat>)
    ensures r.Some? ==> r.value < |catalog| && catalog[r.value].name == key
    ensures r.None? <==> !Names(catalog, key)
  {
    if |catalog| == 0 then None
    else if catalog[0].name == key then Some(0)
    else
      var r := FacetIndex(catalog[1..], key);
      assert forall f :: f in catalog[1..] ==> f in catalog;
      assert r.None? && Names(catalog, key) ==> Names(catalog[1..], key);
      if r.Some? then Some(r.value + 1) else None
  }

  /** The position of the first option keyed `v`. */
  function OptionIndex(options: seq<FacetOption>, v: Option<string>): (r: Option<nat>)
    ensures r.Some? ==> r.value < |options| && Some(options[r.value].key) == v
    ensures r.None? <==> forall o :: o in options ==> Some(o.key) != v
  {
    if |options| == 0 then None
    else if Some(options[0].key) == v then Some(0)
    else
      var r := OptionIndex(options[1..], v);
      assert forall o :: o in options ==> o == options[0] || o in options[1..];
      if r.Some? then Some(r.value + 1) else None
  }

  /** The free-text selection a `free` fragment makes. */
  function FreeEntry(fragment: string, textLabel: string): Entry
  {
    var v := FragmentValue(fragment);
    Entry("text=" + JsText(v), textLabel, ValueLabel(v))
  }

  /** What one fragment does, stated without walking the catalog: at most one selection
      together with the catalog after it, or nothing. A `free` fragment selects free text;
      a fragment naming a free-form facet selects it and removes the facet; a fragment
      naming an option of a facet selects it and removes the facet (singleton) or the
      option; any other fragment has no effect. */
  function Effect(catalog: seq<Facet>, fragment: string, textLabel: string): Option<(Entry, seq<Facet>)>
  {
    var key := FragmentKey(fragment);
    var v := FragmentValue(fragment);
    if key == "free" then Some((FreeEntry(fragment, textLabel), catalog))
    else
      var i := FacetIndex(catalog, key);
      if i.None? then None
      else
        var f := catalog[i.value];
        if f.options.None? then
          Some((Entry(fragment, f.facetLabel, ValueLabel(v)), DeleteFacetEntirely(catalog, key)))
        else
          var j := OptionIndex(f.options.value, v);
          if j.None? then None
          else
            var o := f.options.value[j.value];
            Some((Entry(fragment, f.facetLabel, o.optionLabel),
                  if f.singleton then DeleteFacetEntirely(catalog, key) else DeleteFacetSelection(catalog, key, o.key)))
  }

  /** The state after a fragment's effect. */
  function Apply(st: Scan, effect: Option<(Entry, seq<Facet>)>): Scan
  {
    if effect.Some? then Scan(st.selections + [effect.value.0], effect.value.1) else st
  }

  /** No matching option: the walk over the options changes nothing. */
  lemma {:induction false} OptionsStepMissing(options: seq<FacetOption>, facet: Facet, fragment: string, st: Scan)
    requires forall o :: o in options ==> Some(o.key) != FragmentValue(fragment)
    ensures OptionsStep(options, facet, fragment, st) == st
    decreases |options|
  {
    if |options| > 0 {
      var prefix := options[..|options| - 1];
      assert forall o :: o in prefix ==> o in options;
      OptionsStepMissing(prefix, facet, fragment, st);
      assert options[|options| - 1] in options;
    }
  }

  /** With unique option keys, the walk over the options does what the one matching
      option does. */
  lemma {:induction false} OptionsStepUnique(options: seq<FacetOption>, facet: Facet, fragment: string, st: Scan, j: int)
    requires UniqueOptionKeys(options)
    requires 0 <= j < |options| && Some(options[j].key) == FragmentValue(fragment)
    ensures OptionsStep(options, facet, fragment, st) ==
      Scan(st.selections + [Entry(fragment, facet.facetLabel, options[j].optionLabel)],
           if facet.singleton then DeleteFacetEntirely(st.catalog, FragmentKey(fragment))
           else DeleteFacetSelection(st.catalog, FragmentKey(fragment), options[j].key))
    decreases |options|
  {
    var prefix := options[..|options| - 1];
    if j == |options| - 1 {
      forall o | o in prefix ensures Some(o.key) != FragmentValue(fragment) {
        var k :| 0 <= k < |prefix| && prefix[k] == o;
        assert options[k] == o;
      }
      OptionsStepMissing(prefix, facet, fragment, st);
    } else {
      assert UniqueOptionKeys(prefix) by {
        forall a, b | 0 <= a < b < |prefix| ensures prefix[a].key != prefix[b].key {
          assert prefix[a] == options[a] && prefix[b] == options[b];
        }
      }
      OptionsStepUnique(prefix, facet, fragment, st, j);
      assert options[|options| - 1].key != options[j].key;
    }
  }

  /** No facet of the fragment's name: the walk over the catalog changes nothing. */
  lemma {:induction false} FacetsStepMissing(snapshot: seq<Facet>, fragment: string, st: Scan)
    requires !Names(snapshot, FragmentKey(fragment))
    ensures FacetsStep(snapshot, fragment, st) == st
    decreases |snapshot|
  {
    if |snapshot| > 0 {
      var prefix := snapshot[..|snapshot| - 1];
      assert forall f :: f in prefix ==> f in snapshot;
      FacetsStepMissing(prefix, fragment, st);
      assert snapshot[|snapshot| - 1] in snapshot;
    }
  }

  /** With unique facet names, the walk over the catalog does what the one facet of the
      fragment's name does. */
  lemma {:induction false} FacetsStepUnique(snapshot: seq<Facet>, fragment: string, st: Scan, i: int)
    requires UniqueNames(snapshot)
    requires 0 <= i < |snapshot| && snapshot[i].name == FragmentKey(fragment)
    ensures FacetsStep(snapshot, fragment, st) == FacetStep(snapshot[i], fragment, st)
    decreases |snapshot|
  {
    var prefix := snapshot[..|snapshot| - 1];
    if i == |snapshot| - 1 {
      assert !Names(prefix, FragmentKey(fragment)) by {
        forall f | f in prefix ensures f.name != FragmentKey(fragment) {
          var k :| 0 <= k < |prefix| && prefix[k] == f;
          assert snapshot[k] == f;
        }
      }
      FacetsStepMissing(prefix, fragment, st);
    } else {
      assert UniqueNames(prefix) by {
        forall a, b | 0 <= a < b < |prefix| ensures prefix[a].name != prefix[b].name {
          assert prefix[a] == snapshot[a] && prefix[b] == snapshot[b];
        }
      }
      FacetsStepUnique(prefix, fragment, st, i);
    }
  }

  /** On a well-formed catalog, the walks of `initFacets` for one fragment do exactly what
      `Effect` describes. */
  lemma FragmentStepEffect(st: Scan, fragment: string, textLabel: string)
    requires WellFormed(st.catalog)
    ensures FragmentStep(st, fragment, textLabel) == Apply(st, Effect(st.catalog, fragment, textLabel))
  {
    var key := FragmentKey(fragment);
    if key != "free" {
      var i := FacetIndex(st.catalog, key);
      if i.None? {
        FacetsStepMissing(st.catalog, fragment, st);
      } else {
        FacetsStepUnique(st.catalog, fragment, st, i.value);
        var f := st.catalog[i.value];
        if f.options.Some? {
          var j := OptionIndex(f.options.value, FragmentValue(fragment));
          if j.Some? {
            OptionsStepUnique(f.options.value, f, fragment, st, j.value);
          } else {
            OptionsStepMissing(f.options.value, f, fragment, st);
          }
        }
      }
    }
  }

  /** A fragment's effect keeps the catalog well-formed. */
  lemma EffectWellFormed(catalog: seq<Facet>, fragment: string, textLabel: string)
    requires WellFormed(catalog)
    ensures Effect(catalog, fragment, textLabel).Some? ==> WellFormed(Effect(catalog, fragment, textLabel).value.1)
  {
    var key := FragmentKey(fragment);
    DeleteFacetEntirelyWellFormed(catalog, key);
    var i := FacetIndex(catalog, key);
    if key != "free" && i.Some? && catalog[i.value].options.Some? {
      var j := OptionIndex(catalog[i.value].options.value, FragmentValue(fragment));
      if j.Some? {
        DeleteFacetSelectionWellFormed(catalog, key, catalog[i.value].options.value[j.value].key);
      }
    }
  }

  // ---- the whole address ----

  /** Reconciling a sequence of fragments is reconciling its first part, then the rest:
      the selections follow the order of the fragments in the address. */
  lemma {:induction false} ReconcileConcat(a: seq<string>, b: seq<string>, st: Scan, textLabel: string)
    ensures Reconcile(a + b, st, textLabel) == Reconcile(b, Reconcile(a, st, textLabel), textLabel)
    decreases |b|
  {
    if |b| == 0 {
      assert a + b == a;
    } else {
      assert (a + b)[..|a + b| - 1] == a + b[..|b| - 1];
      ReconcileConcat(a, b[..|b| - 1], st, textLabel);
    }
  }

  /** `initFacets` keeps the selections it starts with (its callers empty them), adds at
      most one selection per fragment, and leaves a well-formed catalog well-formed. */
  lemma {:induction false} ReconcileExtends(fragments: seq<string>, st: Scan, textLabel: string)
    requires WellFormed(st.catalog)
    ensures var r := Reconcile(fragments, st, textLabel);
      && WellFormed(r.catalog)
      && st.selections <= r.selections
      && |r.selections| <= |st.selections| + |fragments|
    decreases |fragments|
  {
    if |fragments| > 0 {
      var prev := Reconcile(fragments[..|fragments| - 1], st, textLabel);
      ReconcileExtends(fragments[..|fragments| - 1], st, textLabel);
      FragmentStepEffect(prev, fragments[|fragments| - 1], textLabel);
      EffectWellFormed(prev.catalog, fragments[|fragments| - 1], textLabel);
    }
  }

  /** Every `free` fragment becomes a free-text selection. */
  lemma FreeFragmentSelected(st: Scan, fragment: string, textLabel: string)
    requires FragmentKey(fragment) == "free"
    ensures FragmentStep(st, fragment, textLabel) == Scan(st.selections + [FreeEntry(fragment, textLabel)], st.catalog)
    ensures FragmentKey(FreeEntry(fragment, textLabel).name) == "text"
  {
    TextKey(JsText(FragmentValue(fragment)));
  }

  /** The key of a `text=` name is `text`. */
  lemma TextKey(x: string)
    ensures FragmentKey("text=" + x) == "text"
  {
    assert "text=" + x == "text" + ['='] + x;
    SplitAtSeparator("text", x, '=');
  }

  /** The facet key of a selection's name. */
  function EntryKey(e: Entry): string
  {
    FragmentKey(e.name)
  }

  /** The value of a selection's name. */
  function EntryValue(e: Entry): Option<string>
  {
    FragmentValue(e.name)
  }

  /** A selection made from a catalog facet rather than from free text. */
  predicate FacetEntry(e: Entry)
  {
    EntryKey(e) != "text"
  }

  /** The catalog no longer offers any facet selection already made. */
  predicate Consumed(st: Scan)
  {
    forall e :: e in st.selections && FacetEntry(e) ==> !Offers(st.catalog, EntryKey(e), EntryValue(e))
  }

  /** No two facet selections have the same facet and value. */
  predicate DistinctFacetEntries(selections: seq<Entry>)
  {
    forall i, j :: 0 <= i < j < |selections| && FacetEntry(selections[i]) && FacetEntry(selections[j]) ==>
      EntryKey(selections[i]) != EntryKey(selections[j]) || EntryValue(selections[i]) != EntryValue(selections[j])
  }

  /** A facet selection is made only from what the catalog offers, and the catalog after
      it offers that selection no more and nothing it did not offer before. */
  lemma EffectConsumes(catalog: seq<Facet>, fragment: string, textLabel: string)
    requires WellFormed(catalog)
    requires Effect(catalog, fragment, textLabel).Some?
    ensures var (e, after) := Effect(catalog, fragment, textLabel).value;
      && (FacetEntry(e) ==> Offers(catalog, EntryKey(e), EntryValue(e)) && !Offers(after, EntryKey(e), EntryValue(e)))
      && (forall k, v :: Offers(after, k, v) ==> Offers(catalog, k, v))
  {
    var key := FragmentKey(fragment);
    var v := FragmentValue(fragment);
    var (e, after) := Effect(catalog, fragment, textLabel).value;
    if key == "free" {
      TextKey(JsText(v));
    } else {
      var i := FacetIndex(catalog, key).value;
      var f := catalog[i];
      forall k, v' | Offers(after, k, v') ensures Offers(catalog, k, v') {
        if after == DeleteFacetEntirely(catalog, key) {
          DeleteFacetEntirelyOffers(catalog, key, k, v');
        } else {
          DeleteFacetSelectionOffers(catalog, key, f.options.value[OptionIndex(f.options.value, v).value].key, k, v');
        }
      }
      if f.options.None? || f.singleton {
        if Offers(after, key, v) {
          DeleteFacetEntirelyOffers(catalog, key, key, v);
        }
      } else {
        var o := f.options.value[OptionIndex(f.options.value, v).value];
        assert o in f.options.value;
        forall g | g in catalog && g.name == key ensures g.options.Some? {
          var m :| 0 <= m < |catalog| && catalog[m] == g;
          assert m == i;
        }
        DeleteFacetSelectionOffers(catalog, key, o.key, key, v);
      }
    }
  }

  /** Reconciling keeps the catalog well-formed, keeps every facet selection out of the
      catalog, and keeps facet selections distinct. */
  lemma {:induction false} ReconcileInvariant(fragments: seq<string>, st: Scan, textLabel: string)
    requires WellFormed(st.catalog) && Consumed(st) && DistinctFacetEntries(st.selections)
    ensures var r := Reconcile(fragments, st, textLabel);
      WellFormed(r.catalog) && Consumed(r) && DistinctFacetEntries(r.selections)
    decreases |fragments|
  {
    if |fragments| > 0 {
      var fragment := fragments[|fragments| - 1];
      var prev := Reconcile(fragments[..|fragments| - 1], st, textLabel);
      ReconcileInvariant(fragments[..|fragments| - 1], st, textLabel);
      FragmentStepEffect(prev, fragment, textLabel);
      var effect := Effect(prev.catalog, fragment, textLabel);
      if effect.Some? {
        var (e, after) := effect.value;
        EffectWellFormed(prev.catalog, fragment, textLabel);
        EffectConsumes(prev.catalog, fragment, textLabel);
        var sel := prev.selections + [e];
        forall x | x in sel && FacetEntry(x) ensures !Offers(after, EntryKey(x), EntryValue(x)) {
          if x != e {
            assert x in prev.selections;
          }
        }
        forall a, b | 0 <= a < b < |sel| && FacetEntry(sel[a]) && FacetEntry(sel[b])
          ensures EntryKey(sel[a]) != EntryKey(sel[b]) || EntryValue(sel[a]) != EntryValue(sel[b])
        {
          if b == |sel| - 1 {
            assert sel[a] in prev.selections;
          } else {
            assert sel[a] == prev.selections[a] && sel[b] == prev.selections[b];
          }
        }
      }
    }
  }

  /** Reloading a bookmarked address never selects the same facet value twice: the facet
      selections `initFacets` makes from a well-formed catalog are pairwise distinct, and
      none of them is still offered by the pruned catalog. */
  lemma ReconcileNoDuplicates(fragments: seq<string>, catalog: seq<Facet>, textLabel: string)
    requires WellFormed(catalog)
    ensures var r := Reconcile(fragments, Scan([], catalog), textLabel);
      DistinctFacetEntries(r.selections) && Consumed(r)
  {
    ReconcileInvariant(fragments, Scan([], catalog), textLabel);
  }

  /** `initFacets` clears the prompt exactly when the address has a non-empty query. */
  lemma PromptClearedIffQuery(u: Url)
    ensures ClearsPrompt(UrlFragments(u)) <==> u.query.Some? && u.query.value != ""
  {
    if u.query.Some? && u.query.value != "" {
      var q := u.query.value;
      StartsWithConcat("?", q);
      assert ("?" + q)[1..] == q;
      var parts := Split(q, '&');
      if |parts| == 1 {
        JoinSplit(q, '&');
      }
    }
  }

  /** After `clearSearch` the address has no query, so reading it again selects nothing and
      leaves the catalog whole, unless the catalog has a facet with the empty name. */
  lemma ClearedAddressSelectsNothing(path: string, catalog: seq<Facet>, textLabel: string)
    requires '?' !in path
    requires !Names(catalog, "")
    ensures UrlFragments(Url(path, None)) == [""]
    ensures Reconcile(UrlFragments(Url(path, None)), Scan([], catalog), textLabel) == Scan([], catalog)
  {
    assert Split("", '=') == [""];
    assert FragmentKey("") == "";
    FacetsStepMissing(catalog, "", Scan([], catalog));
    assert [""][..0] == [];
  }

  // ---- the notifications and what the table does with them ----

  /** The facet names `emitQuery` puts in its query: every selection that is not free text,
      in order. */
  function FacetNames(selections: seq<Entry>): (names: seq<string>)
    ensures |names| <= |selections|
    ensures forall n :: n in names ==> !StartsWith(n, "text=") && exists e :: e in selections && e.name == n
    ensures forall e :: e in selections && !StartsWith(e.name, "text=") ==> e.name in names
  {
    if |selections| == 0 then []
    else
      var rest := FacetNames(selections[1..]);
      assert forall e :: e in selections[1..] ==> e in selections;
      assert forall e :: e in selections ==> e == selections[0] || e in selections[1..];
      if StartsWith(selections[0].name, "text=") then rest else [selections[0].name] + rest
  }

  /** The query `emitQuery` emits: the facet names joined by `&`. */
  function FacetQuery(selections: seq<Entry>): string
  {
    Join(FacetNames(selections), "&")
  }

  /** The address after the table has handled an event. */
  function UrlOnEvent(u: Url, e: Event): Url
  {
    match e
    case TextRemoved => UrlAfter(u, TextRemovedPush(u))
    case SearchUpdated(q) => UrlAfter(u, Some(SearchUpdatedPush(u, q)))
    case CheckFacets(_) => u
  }

  /** The table's update-callback calls after it has handled an event. */
  function UpdatesOnEvent(log: seq<Option<Params>>, u: Url, e: Event, hasUpdate: bool): seq<Option<Params>>
  {
    match e
    case TextRemoved => LogAfter(log, TextRemovedPush(u), hasUpdate)
    case SearchUpdated(q) => LogAfter(log, Some(SearchUpdatedPush(u, q)), hasUpdate)
    case CheckFacets(_) => log
  }

  /** The notification `removeFacet` sends for the removed selection: none while a facet is
      being chosen; `textRemoved` for free text; otherwise the query of what is left. */
  function RemovalNotice(removed: string, rest: seq<Entry>, selected: Option<Entry>): Option<Event>
  {
    if selected.Some? then None
    else if StartsWith(removed, "text=") then Some(TextRemoved)
    else Some(SearchUpdated(FacetQuery(rest)))
  }

  /** The address after an optional notification. */
  function UrlOnNotice(u: Url, notice: Option<Event>): Url
  {
    if notice.Some? then UrlOnEvent(u, notice.value) else u
  }

  /** The update-callback calls after an optional notification. */
  function UpdatesOnNotice(log: seq<Option<Params>>, u: Url, notice: Option<Event>, hasUpdate: bool): seq<Option<Params>>
  {
    if notice.Some? then UpdatesOnEvent(log, u, notice.value, hasUpdate) else log
  }

  /** An option label as `optionClicked` stores it: an array of strings is joined. */
  function Flatten(d: Display): (r: Display)
    ensures !r.Parts?
    ensures d.Parts? ==> r == Text(Join(d.parts, ""))
    ensures !d.Parts? ==> r == d
  {
    if d.Parts? then Text(Join(d.parts, "")) else d
  }

  /** The scope of the search widget, as one value. */
  datatype Widget = Widget(
    prompt: string,
    currentSearch: seq<Entry>,
    facetsObj: seq<Facet>,
    facetsSave: seq<Facet>,
    filteredObj: seq<Facet>,
    facetSelected: Option<Entry>,
    filteredOptions: seq<FacetOption>,
    textSearch: Option<string>,
    searchInput: string,
    searching: bool,
    isMenuOpen: bool,
    events: seq<Event>)

  /** The `magicOverrides` controller over the scope of the base widget. */
  class MagicOverrides {
    /** The table link that listens to the widget's notifications. */
    const table: MagicStSearch
    /** `strings.text`, the label of free-text selections. */
    const textLabel: string
    /** `promptString`, the prompt shown while nothing is selected. */
    const promptString: string

    /** `strings.prompt`. */
    var prompt: string
    /** The active selections. */
    var currentSearch: seq<Entry>
    /** The working catalog, pruned of what is selected. */
    var facetsObj: seq<Facet>
    /** The full catalog the working one is restored from. */
    var facetsSave: seq<Facet>
    /** The catalog the facet menu shows. */
    var filteredObj: seq<Facet>
    /** The facet whose options are being chosen, if any. */
    var facetSelected: Option<Entry>
    /** The options the option menu shows. */
    var filteredOptions: seq<FacetOption>
    /** The free-text term. */
    var textSearch: Option<string>
    /** The text of the search input. */
    var searchInput: string
    /** Set by `searchUpdated`, so that the menu stays closed after a search. */
    var searching: bool
    /** Whether the facet menu is open. */
    var isMenuOpen: bool
    /** The notifications emitted, oldest first. */
    var events: seq<Event>

    /** All the variable state, as one value. */
    function State(): Widget
      reads this
    {
      Widget(prompt, currentSearch, facetsObj, facetsSave, filteredObj, facetSelected,
             filteredOptions, textSearch, searchInput, searching, isMenuOpen, events)
    }

    /** The widget over `catalog`, before the address is read. */
    constructor (table: MagicStSearch, textLabel: string, promptString: string, catalog: seq<Facet>)
      ensures this.table == table && this.textLabel == textLabel && this.promptString == promptString
      ensures State() == Widget(promptString, [], catalog, catalog, catalog, None, [], None, "", false, false, [])
    {
      this.table := table;
      this.textLabel := textLabel;
      this.promptString := promptString;
      prompt := promptString;
      currentSearch := [];
      facetsObj := catalog;
      facetsSave := catalog;
      filteredObj := catalog;
      facetSelected := None;
      filteredOptions := [];
      textSearch := None;
      searchInput := "";
      searching := false;
      isMenuOpen := false;
      events := [];
    }

    /** `showMenu`: opens the menu unless a search has just happened; the search flag is
        cleared either way. */
    method ShowMenu()
      modifies this
      ensures State() == old(State()).(isMenuOpen := old(isMenuOpen) || !old(searching), searching := false)
    {
      if !searching {
        isMenuOpen := true;
      }
      searching := false;
    }

    /** `hideMenu`. */
    method HideMenu()
      modifies this
      ensures State() == old(State()).(isMenuOpen := false)
    {
      isMenuOpen := false;
    }

    /** `$emit`: the widget's own `searchUpdated` listener sets the search flag, and the
        table handles `textRemoved` and `searchUpdated` before `$emit` returns. */
    method Emit(e: Event)
      modifies this, table, table.location
      ensures State() == old(State()).(events := old(events) + [e], searching := old(searching) || e.SearchUpdated?)
      ensures table.location.url == UrlOnEvent(old(table.location.url), e)
      ensures table.updates == UpdatesOnEvent(old(table.updates), old(table.location.url), e, table.hasUpdate)
    {
      events := events + [e];
      match e {
        case TextRemoved =>
          table.OnTextRemoved();
        case SearchUpdated(q) =>
          searching := true;
          table.OnSearchUpdated(q);
        case CheckFacets(_) =>
      }
    }

    /** `resetState` of the base widget: no facet in progress, no options shown, the menu
        shows the working catalog. */
    method ResetState()
      modifies this
      ensures State() == old(State()).(facetSelected := None, filteredOptions := [], filteredObj := old(facetsObj))
    {
      facetSelected := None;
      filteredOptions := [];
      filteredObj := facetsObj;
    }

    /** `emitQuery` of the base widget: emit `searchUpdated` with the facet query. */
    method EmitQuery()
      modifies this, table, table.location
      ensures State() == old(State()).(events := old(events) + [SearchUpdated(FacetQuery(old(currentSearch)))], searching := true)
      ensures table.location.url == UrlOnEvent(old(table.location.url), SearchUpdated(FacetQuery(old(currentSearch))))
      ensures table.updates == UpdatesOnEvent(old(table.updates), old(table.location.url), SearchUpdated(FacetQuery(old(currentSearch))), table.hasUpdate)
    {
      Emit(SearchUpdated(FacetQuery(currentSearch)));
    }

    /** The inner walk of `initFacets` over the options of `facet` for one fragment. */
    method WalkOptions(facet: Facet, fragment: string, options: seq<FacetOption>)
      modifies this
      ensures Scan(currentSearch, facetsObj) == OptionsStep(options, facet, fragment, Scan(old(currentSearch), old(facetsObj)))
      ensures State() == old(State()).(currentSearch := currentSearch, facetsObj := facetsObj)
    {
      var parts := Split(fragment, '=');
      ghost var start := Scan(currentSearch, facetsObj);
      var k := 0;
      while k < |options|
        invariant 0 <= k <= |options|
        invariant Scan(currentSearch, facetsObj) == OptionsStep(options[..k], facet, fragment, start)
        invariant State() == old(State()).(currentSearch := currentSearch, facetsObj := facetsObj)
      {
        var option := options[k];
        if |parts| > 1 && option.key == parts[1] {
          currentSearch := currentSearch + [Entry(fragment, facet.facetLabel, option.optionLabel)];
          if facet.singleton {
            facetsObj := DeleteFacetEntirely(facetsObj, parts[0]);
          } else {
            facetsObj := DeleteFacetSelection(facetsObj, parts[0], option.key);
          }
        }
        assert options[..k + 1][..k] == options[..k];
        k := k + 1;
      }
      assert options[..k] == options;
    }

    /** The walk of `initFacets` over the working catalog (as it was when the walk began)
        for one fragment that is not free text. */
    method WalkFacets(fragment: string)
      modifies this
      ensures Scan(currentSearch, facetsObj) == FacetsStep(old(facetsObj), fragment, Scan(old(currentSearch), old(facetsObj)))
      ensures State() == old(State()).(currentSearch := currentSearch, facetsObj := facetsObj)
    {
      var parts := Split(fragment, '=');
      ghost var start := Scan(currentSearch, facetsObj);
      var snapshot := facetsObj;
      var j := 0;
      while j < |snapshot|
        invariant 0 <= j <= |snapshot|
        invariant Scan(currentSearch, facetsObj) == FacetsStep(snapshot[..j], fragment, start)
        invariant State() == old(State()).(currentSearch := currentSearch, facetsObj := facetsObj)
      {
        var facet := snapshot[j];
        if facet.name == parts[0] {
          if facet.options.None? {
            var valueLabel := if |parts| > 1 then Text(parts[1]) else Undefined;
            currentSearch := currentSearch + [Entry(fragment, facet.facetLabel, valueLabel)];
            facetsObj := DeleteFacetEntirely(facetsObj, parts[0]);
          } else {
            WalkOptions(facet, fragment, facet.options.value);
          }
        }
        assert snapshot[..j + 1][..j] == snapshot[..j];
        j := j + 1;
      }
      assert snapshot[..j] == snapshot;
    }

    /** The body of the walk of `initFacets` over the fragments, for one fragment. */
    method ReadFragment(fragment: string)
      modifies this
      ensures Scan(currentSearch, facetsObj) == FragmentStep(Scan(old(currentSearch), old(facetsObj)), fragment, textLabel)
      ensures State() == old(State()).(currentSearch := currentSearch, facetsObj := facetsObj)
    {
      var parts := Split(fragment, '=');
      if parts[0] == "free" {
        var value := if |parts| > 1 then parts[1] else "undefined";
        var valueLabel := if |parts| > 1 then Text(parts[1]) else Undefined;
        currentSearch := currentSearch + [Entry("text=" + value, textLabel, valueLabel)];
      } else {
        WalkFacets(fragment);
      }
    }

    /** The walk of `initFacets` over the fragments of the address. */
    method ReadFragments(fragments: seq<string>)
      modifies this
      ensures Scan(currentSearch, facetsObj) == Reconcile(fragments, Scan(old(currentSearch), old(facetsObj)), textLabel)
      ensures State() == old(State()).(currentSearch := currentSearch, facetsObj := facetsObj)
    {
      ghost var start := Scan(currentSearch, facetsObj);
      var i := 0;
      while i < |fragments|
        invariant 0 <= i <= |fragments|
        invariant Scan(currentSearch, facetsObj) == Reconcile(fragments[..i], start, textLabel)
        invariant State() == old(State()).(currentSearch := currentSearch, facetsObj := facetsObj)
      {
        ReadFragment(fragments[i]);
        assert fragments[..i + 1][..i] == fragments[..i];
        i := i + 1;
      }
      assert fragments[..i] == fragments;
    }

    /** `initFacets`: read the address, clear the prompt when it has a query, select what
        each fragment names and prune it from the working catalog (as `Reconcile` says),
        show the pruned catalog and emit `checkFacets`. */
    method InitFacets()
      modifies this
      ensures Scan(currentSearch, facetsObj) == Reconcile(UrlFragments(table.location.url), Scan(old(currentSearch), old(facetsObj)), textLabel)
      ensures State() == old(State()).(
        prompt := if ClearsPrompt(UrlFragments(table.location.url)) then "" else old(prompt),
        currentSearch := currentSearch, facetsObj := facetsObj, filteredObj := facetsObj,
        events := old(events) + [CheckFacets(currentSearch)])
    {
      var fragments := UrlFragments(table.location.url);
      if |fragments| > 1 || |fragments[0]| > 0 {
        prompt := "";
      }
      ReadFragments(fragments);
      filteredObj := facetsObj;
      events := events + [CheckFacets(currentSearch)];
    }

    /** `optionClicked(index, name)` while the facet `facetSelected` is being chosen: close
        the menu, append the facet with the chosen value (its option label joined when it
        is an array), reset the menus and emit the facet query. Nothing prevents the same
        selection from being appended twice. */
    method OptionClicked(index: nat, name: string)
      requires facetSelected.Some? && index < |filteredOptions|
      modifies this, table, table.location
      ensures var entry := Entry(old(facetSelected).value.name + "=" + name, old(facetSelected).value.facetLabel,
                                 Flatten(old(filteredOptions)[index].optionLabel));
        && currentSearch == old(currentSearch) + [entry]
        && State() == old(State()).(
             currentSearch := currentSearch, facetSelected := None, filteredOptions := [],
             filteredObj := old(facetsObj), isMenuOpen := false, searching := true,
             events := old(events) + [SearchUpdated(FacetQuery(currentSearch))])
        && table.location.url == UrlOnEvent(old(table.location.url), SearchUpdated(FacetQuery(currentSearch)))
        && table.updates == UpdatesOnEvent(old(table.updates), old(table.location.url), SearchUpdated(FacetQuery(currentSearch)), table.hasUpdate)
    {
      HideMenu();
      var curr := facetSelected.value;
      var valueLabel := filteredOptions[index].optionLabel;
      if valueLabel.Parts? {
        valueLabel := Text(Join(valueLabel.parts, ""));
      }
      curr := Entry(curr.name + "=" + name, curr.facetLabel, valueLabel);
      currentSearch := currentSearch + [curr];
      ResetState();
      EmitQuery();
    }

    /** The notification part of `removeFacet`, once `removed` is out of the selections. */
    method AnnounceRemoval(removed: string)
      modifies this, table, table.location
      ensures var notice := RemovalNotice(removed, old(currentSearch), old(facetSelected));
        && table.location.url == UrlOnNotice(old(table.location.url), notice)
        && table.updates == UpdatesOnNotice(old(table.updates), old(table.location.url), notice, table.hasUpdate)
        && State() == old(State()).(
             facetSelected := None,
             filteredOptions := if old(facetSelected).Some? then [] else old(filteredOptions),
             filteredObj := if old(facetSelected).Some? then old(facetsObj) else old(filteredObj),
             searchInput := if old(facetSelected).Some? then "" else old(searchInput),
             textSearch := if notice == Some(TextRemoved) then None else old(textSearch),
             searching := old(searching) || (notice.Some? && notice.value.SearchUpdated?),
             events := old(events) + (if notice.Some? then [notice.value] else []))
    {
      if facetSelected.None? {
        if StartsWith(removed, "text=") {
          textSearch := None;
          Emit(TextRemoved);
        } else {
          EmitQuery();
        }
      } else {
        ResetState();
        searchInput := "";
      }
    }

    /** The end of `removeFacet`: the prompt back when nothing is selected, then the
        selections and the working catalog rebuilt from the full catalog and the address,
        and a second `checkFacets`. */
    method Restore()
      modifies this
      ensures Scan(currentSearch, facetsObj) == Reconcile(UrlFragments(table.location.url), Scan([], old(facetsSave)), textLabel)
      ensures State() == old(State()).(
        prompt := if ClearsPrompt(UrlFragments(table.location.url)) then ""
                  else if old(currentSearch) == [] then promptString else old(prompt),
        currentSearch := currentSearch, facetsObj := facetsObj, filteredObj := facetsObj,
        events := old(events) + [CheckFacets(currentSearch), CheckFacets(currentSearch)])
    {
      if |currentSearch| == 0 {
        prompt := promptString;
      }
      facetsObj := facetsSave;
      currentSearch := [];
      InitFacets();
      events := events + [CheckFacets(currentSearch)];
    }

    /** `removeFacet(index)`. An index past the end fails before anything changes.
        Otherwise the selection is taken out and announced (`RemovalNotice`), the prompt
        comes back when nothing is left, and the selections and the working catalog are
        rebuilt from the full catalog and the address as the table has just rewritten it,
        with a second `checkFacets`. */
    method RemoveFacet(index: nat) returns (ok: bool)
      modifies this, table, table.location
      ensures ok <==> index < |old(currentSearch)|
      ensures !ok ==> State() == old(State()) && table.location.url == old(table.location.url) && table.updates == old(table.updates)
      ensures ok ==>
        var rest := old(currentSearch)[..index] + old(currentSearch)[index + 1..];
        var notice := RemovalNotice(old(currentSearch)[index].name, rest, old(facetSelected));
        var u := UrlOnNotice(old(table.location.url), notice);
        && table.location.url == u
        && table.updates == UpdatesOnNotice(old(table.updates), old(table.location.url), notice, table.hasUpdate)
        && Scan(currentSearch, facetsObj) == Reconcile(UrlFragments(u), Scan([], old(facetsSave)), textLabel)
        && State() == old(State()).(
             prompt := if ClearsPrompt(UrlFragments(u)) then "" else if rest == [] then promptString else old(prompt),
             currentSearch := currentSearch, facetsObj := facetsObj, filteredObj := facetsObj,
             facetSelected := None,
             filteredOptions := if old(facetSelected).Some? then [] else old(filteredOptions),
             searchInput := if old(facetSelected).Some? then "" else old(searchInput),
             textSearch := if notice == Some(TextRemoved) then None else old(textSearch),
             searching := old(searching) || (notice.Some? && notice.value.SearchUpdated?),
             events := old(events) + (if notice.Some? then [notice.value] else [])
                       + [CheckFacets(currentSearch), CheckFacets(currentSearch)])
    {
      if index >= |currentSearch| {
        return false;
      }
      ok := true;
      var removed := currentSearch[index].name;
      currentSearch := currentSearch[..index] + currentSearch[index + 1..];
      AnnounceRemoval(removed);
      Restore();
    }

    /** `clearSearch`: no selections, the full catalog, the prompt back, no free text; the
        address loses its query and `searchUpdated` is emitted with the empty query. */
    method ClearSearch()
      modifies this, table, table.location
      ensures State() == old(State()).(
        prompt := promptString, currentSearch := [], facetsObj := old(facetsSave), filteredObj := old(facetsSave),
        facetSelected := None, filteredOptions := [], textSearch := None, searching := true,
        events := old(events) + [SearchUpdated("")])
      ensures table.location.url == Url(old(table.location.url).path, None)
      ensures table.updates == LogAfter(old(table.updates), Some(Push(Some(""), Some([]))), table.hasUpdate)
    {
      currentSearch := [];
      facetsObj := facetsSave;
      ResetState();
      prompt := promptString;
      textSearch := None;
      var url := Href(table.location.url);
      HrefParts(table.location.url);
      if '?' in url {
        url := Split(url, '?')[0];
      }
      table.location.PushState(Url(url, None));
      Emit(SearchUpdated(""));
    }

    /** The `facetsChanged` listener: no selections, then `initSearch` with the catalog the
        widget is now given, which restarts from the address. */
    method FacetsChanged(catalog: seq<Facet>)
      modifies this
      ensures Scan(currentSearch, facetsObj) == Reconcile(UrlFragments(table.location.url), Scan([], catalog), textLabel)
      ensures State() == old(State()).(
        prompt := if ClearsPrompt(UrlFragments(table.location.url)) then "" else old(prompt),
        currentSearch := currentSearch, facetsObj := facetsObj, facetsSave := catalog, filteredObj := facetsObj,
        events := old(events) + [CheckFacets(currentSearch)])
    {
      currentSearch := [];
      facetsSave := catalog;
      facetsObj := catalog;
      InitFacets();
    }
  }
}
