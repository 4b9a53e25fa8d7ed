/** The query-string codec the table and the instance list call (`hzUtils.serialize` and
    `hzUtils.deserialize`), as a plain JavaScript object of string values whose properties
    keep their insertion order. Neither function escapes anything. */
module QueryCodec {
  import opened Wrappers
  import opened Strings

  /** A string-to-string JavaScript object: its properties in insertion order. */
  type Params = seq<(string, string)>

  /** No property name occurs twice. */
  predicate UniqueKeys(p: Params)
  {
    forall i, j :: 0 <= i < j < |p| ==> p[i].0 != p[j].0
  }

  /** Holds of the params that survive a serialize/deserialize round trip: distinct names,
      and no `&` or `=` in a name or a value. */
  predicate Clean(p: Params)
  {
    && UniqueKeys(p)
    && forall i :: 0 <= i < |p| ==> '&' !in p[i].0 && '=' !in p[i].0 && '&' !in p[i].1 && '=' !in p[i].1
  }

  /** No name and no value holds the character `c`. */
  predicate FreeOf(p: Params, c: char)
  {
    forall i :: 0 <= i < |p| ==> c !in p[i].0 && c !in p[i].1
  }

  /** `params[k]`: the value of property `k`, undefined when there is none. */
  function Get(p: Params, k: string): Option<string>
  {
    if |p| == 0 then None
    else if p[0].0 == k then Some(p[0].1)
    else Get(p[1..], k)
  }

  /** `params[k] = v`: overwrite in place when `k` exists, otherwise add it at the end. */
  function Set(p: Params, k: string, v: string): Params
  {
    if |p| == 0 then [(k, v)]
    else if p[0].0 == k then [(k, v)] + p[1..]
    else [p[0]] + Set(p[1..], k, v)
  }

  /** `delete params[k]`: drop property `k`, keep the others in their order. */
  function Delete(p: Params, k: string): Params
  {
    if |p| == 0 then []
    else if p[0].0 == k then Delete(p[1..], k)
    else [p[0]] + Delete(p[1..], k)
  }

  /** The `k=v` fragments of the params, in order. */
  function Fragments(p: Params): (r: seq<string>)
    ensures |r| == |p|
  {
    seq(|p|, i requires 0 <= i < |p| => p[i].0 + "=" + p[i].1)
  }

  /** `serialize(params)`: the `k=v` fragments joined with `&`. */
  function Serialize(p: Params): string
  {
    Join(Fragments(p), "&")
  }

  /** One fragment read as a property: the text before the first `=` and the text between
      it and the next `=` (empty when the fragment has no `=`). */
  function DecodeFragment(fragment: string): (string, string)
  {
    var parts := Split(fragment, '=');
    (parts[0], if |parts| > 1 then parts[1] else "")
  }

  /** The fragments assigned one after another to an empty object: a later fragment with
      the same name overwrites the value where the name first appeared. */
  function Assign(fragments: seq<string>): Params
  {
    if |fragments| == 0 then []
    else
      var kv := DecodeFragment(fragments[|fragments| - 1]);
      Set(Assign(fragments[..|fragments| - 1]), kv.0, kv.1)
  }

  /** `deserialize(query)`: the empty string is the empty object, any other string is split
      on `&` and each fragment assigned in turn. */
  function Deserialize(query: string): Params
  {
    if query == "" then [] else Assign(Split(query, '&'))
  }

  // ---- properties of the object operations ----

  /** A name that reads a value carries it in some property. */
  lemma {:induction false} GetMember(p: Params, k: string)
    requires Get(p, k).Some?
    ensures exists i :: 0 <= i < |p| && p[i] == (k, Get(p, k).value)
  {
    if p[0].0 != k {
      GetMember(p[1..], k);
      var i :| 0 <= i < |p[1..]| && p[1..][i] == (k, Get(p, k).value);
      assert p[i + 1] == p[1..][i];
    }
  }

  /** After `params[k] = v`, `k` reads `v` and every other name reads as before. */
  lemma {:induction false} SetGet(p: Params, k: string, v: string, k': string)
    ensures Get(Set(p, k, v), k') == if k' == k then Some(v) else Get(p, k')
  {
    if |p| > 0 && p[0].0 != k {
      SetGet(p[1..], k, v, k');
      assert Set(p, k, v)[1..] == Set(p[1..], k, v);
    } else if |p| > 0 {
      assert Set(p, k, v)[1..] == p[1..];
    }
  }

  /** Assigning a property keeps the names distinct; a name already there keeps its place. */
  lemma {:induction false} SetUnique(p: Params, k: string, v: string)
    requires UniqueKeys(p)
    ensures UniqueKeys(Set(p, k, v))
    ensures Get(p, k).None? ==> Set(p, k, v) == p + [(k, v)]
    ensures |Set(p, k, v)| == if Get(p, k).Some? then |p| else |p| + 1
  {
    if |p| > 0 && p[0].0 != k {
      SetUnique(p[1..], k, v);
      SetNames(p[1..], k, v);
    }
  }

  /** The names of `Set(p, k, v)` are those of `p` and `k`. */
  lemma {:induction false} SetNames(p: Params, k: string, v: string)
    ensures forall i :: 0 <= i < |Set(p, k, v)| ==> Set(p, k, v)[i].0 == k || exists j :: 0 <= j < |p| && p[j].0 == Set(p, k, v)[i].0
  {
    if |p| > 0 && p[0].0 != k {
      SetNames(p[1..], k, v);
      var r := Set(p, k, v);
      forall i | 0 <= i < |r| ensures r[i].0 == k || exists j :: 0 <= j < |p| && p[j].0 == r[i].0 {
        if i > 0 {
          assert r[i] == Set(p[1..], k, v)[i - 1];
          if r[i].0 != k {
            var j :| 0 <= j < |p[1..]| && p[1..][j].0 == r[i].0;
            assert p[j + 1].0 == r[i].0;
          }
        }
      }
    } else if |p| > 0 {
      var r := Set(p, k, v);
      forall i | 0 <= i < |r| ensures r[i].0 == k || exists j :: 0 <= j < |p| && p[j].0 == r[i].0 {
        if i > 0 {
          assert p[i].0 == r[i].0;
        }
      }
    }
  }

  /** After `delete params[k]`, `k` is undefined and every other name reads as before. */
  lemma {:induction false} DeleteGet(p: Params, k: string, k': string)
    ensures Get(Delete(p, k), k') == if k' == k then None else Get(p, k')
  {
    if |p| > 0 {
      DeleteGet(p[1..], k, k');
    }
  }

  /** Deleting a property that is not there changes nothing. */
  lemma {:induction false} DeleteAbsent(p: Params, k: string)
    requires Get(p, k).None?
    ensures Delete(p, k) == p
  {
    if |p| > 0 {
      DeleteAbsent(p[1..], k);
    }
  }

  /** Deletion keeps every remaining property, in order: it is a sub-list of the original. */
  lemma {:induction false} DeleteKeeps(p: Params, k: string)
    ensures forall i :: 0 <= i < |Delete(p, k)| ==> Delete(p, k)[i] in p && Delete(p, k)[i].0 != k
  {
    if |p| > 0 {
      DeleteKeeps(p[1..], k);
    }
  }

  /** Deleting keeps params clean and free of any character they were free of. */
  lemma {:induction false} DeleteClean(p: Params, k: string, c: char)
    requires Clean(p)
    ensures Clean(Delete(p, k))
    ensures FreeOf(p, c) ==> FreeOf(Delete(p, k), c)
  {
    DeleteKeeps(p, k);
    var d := Delete(p, k);
    forall i, j | 0 <= i < j < |d| ensures d[i].0 != d[j].0 {
      DeleteOrder(p, k, i, j);
    }
  }

  /** Two positions of the deleted list come from two distinct positions of the original. */
  lemma {:induction false} DeleteOrder(p: Params, k: string, i: int, j: int)
    requires 0 <= i < j < |Delete(p, k)|
    ensures exists i', j' :: 0 <= i' < j' < |p| && p[i'] == Delete(p, k)[i] && p[j'] == Delete(p, k)[j]
  {
    DeleteKeeps(p, k);
    if p[0].0 == k {
      DeleteOrder(p[1..], k, i, j);
      var i', j' :| 0 <= i' < j' < |p[1..]| && p[1..][i'] == Delete(p, k)[i] && p[1..][j'] == Delete(p, k)[j];
      assert p[i' + 1] == Delete(p, k)[i] && p[j' + 1] == Delete(p, k)[j];
    } else if i == 0 {
      DeleteKeeps(p[1..], k);
      var d' := Delete(p[1..], k);
      assert Delete(p, k)[j] == d'[j - 1];
      assert d'[j - 1] in p[1..];
      var j' :| 0 <= j' < |p[1..]| && p[1..][j'] == d'[j - 1];
      assert p[0] == Delete(p, k)[0] && p[j' + 1] == Delete(p, k)[j];
    } else {
      DeleteOrder(p[1..], k, i - 1, j - 1);
      var i', j' :| 0 <= i' < j' < |p[1..]| && p[1..][i'] == Delete(p, k)[i] && p[1..][j'] == Delete(p, k)[j];
      assert p[i' + 1] == Delete(p, k)[i] && p[j' + 1] == Delete(p, k)[j];
    }
  }

  /** Assigning a clean property to clean params keeps them clean (and free of `c`). */
  lemma SetClean(p: Params, k: string, v: string, c: char)
    requires Clean(p)
    requires '&' !in k && '=' !in k && '&' !in v && '=' !in v
    ensures Clean(Set(p, k, v))
    ensures FreeOf(p, c) && c !in k && c !in v ==> FreeOf(Set(p, k, v), c)
  {
    SetUnique(p, k, v);
    SetMembers(p, k, v);
  }

  /** Every property of `Set(p, k, v)` is `(k, v)` or a property of `p`. */
  lemma {:induction false} SetMembers(p: Params, k: string, v: string)
    ensures forall i :: 0 <= i < |Set(p, k, v)| ==> Set(p, k, v)[i] == (k, v) || Set(p, k, v)[i] in p
  {
    if |p| > 0 && p[0].0 != k {
      SetMembers(p[1..], k, v);
    }
  }

  // ---- the codec ----

  /** Deserializing gives clean params; a query without `c` gives params without `c`. */
  lemma DeserializeClean(query: string, c: char)
    ensures Clean(Deserialize(query))
    ensures c !in query ==> FreeOf(Deserialize(query), c)
  {
    if query != "" {
      var frags := Split(query, '&');
      if c !in query {
        JoinSplit(query, '&');
        forall i | 0 <= i < |frags| ensures c !in frags[i] {
          JoinPieceFree(frags, "&", c, i);
        }
      }
      AssignClean(frags, c);
    }
  }

  /** A character absent from a join is absent from each piece. */
  lemma {:induction false} JoinPieceFree(parts: seq<string>, sep: string, c: char, i: int)
    requires 0 <= i < |parts|
    requires c !in Join(parts, sep)
    ensures c !in parts[i]
  {
    if |parts| > 1 {
      assert Join(parts, sep) == parts[0] + sep + Join(parts[1..], sep);
      if i > 0 {
        JoinPieceFree(parts[1..], sep, c, i - 1);
      }
    }
  }

  /** Assigning `&`-free fragments gives clean params, free of any character the fragments
      are free of. */
  lemma {:induction false} AssignClean(frags: seq<string>, c: char)
    requires forall i :: 0 <= i < |frags| ==> '&' !in frags[i]
    ensures Clean(Assign(frags))
    ensures (forall i :: 0 <= i < |frags| ==> c !in frags[i]) ==> FreeOf(Assign(frags), c)
  {
    if |frags| > 0 {
      var last := frags[|frags| - 1];
      AssignClean(frags[..|frags| - 1], c);
      var parts := Split(last, '=');
      JoinSplit(last, '=');
      JoinPieceFree(parts, "=", '&', 0);
      if c !in last {
        JoinPieceFree(parts, "=", c, 0);
      }
      if |parts| > 1 {
        JoinPieceFree(parts, "=", '&', 1);
      }
      if c !in last && |parts| > 1 {
        JoinPieceFree(parts, "=", c, 1);
      }
      var kv := DecodeFragment(last);
      SetClean(Assign(frags[..|frags| - 1]), kv.0, kv.1, c);
    }
  }

  /** A clean property serialized as `k=v` reads back as itself. */
  lemma DecodeEncodedFragment(k: string, v: string)
    requires '=' !in k && '=' !in v
    ensures DecodeFragment(k + "=" + v) == (k, v)
  {
    SplitJoin([k, v], '=');
    assert Join([k, v], "=") == k + "=" + v;
  }

  /** Round trip: deserializing what was serialized gives back the same params, for params
      with distinct names and no `&` or `=` in names or values. */
  lemma RoundTrip(p: Params)
    requires Clean(p)
    ensures Deserialize(Serialize(p)) == p
  {
    var frags := Fragments(p);
    if |p| > 0 {
      forall i | 0 <= i < |frags| ensures '&' !in frags[i] {
        assert frags[i] == p[i].0 + "=" + p[i].1;
      }
      SplitJoin(frags, '&');
      assert Serialize(p) != "" by {
        assert |Serialize(p)| > 0 by { SerializeNonEmpty(p); }
      }
      AssignFragments(p, |p|);
      assert p[..|p|] == p;
      assert frags[..|p|] == frags;
    }
  }

  /** Appending `&k=v` to a non-empty query assigns `k` after the query's own fragments. */
  lemma DeserializeAppend(query: string, k: string, v: string)
    requires query != ""
    requires '&' !in k && '=' !in k && '&' !in v && '=' !in v
    ensures Deserialize(query + "&" + k + "=" + v) == Set(Deserialize(query), k, v)
  {
    var f := k + "=" + v;
    assert '&' !in f;
    assert query + "&" + k + "=" + v == query + ['&'] + f;
    SplitAppend(query, f, '&');
    var frags := Split(query, '&') + [f];
    assert frags[..|frags| - 1] == Split(query, '&');
    DecodeEncodedFragment(k, v);
  }

  /** A non-empty object serializes to a non-empty string. */
  lemma SerializeNonEmpty(p: Params)
    requires |p| > 0
    ensures |Serialize(p)| > 0
  {
    var frags := Fragments(p);
    assert |frags[0]| > 0 by { assert frags[0] == p[0].0 + "=" + p[0].1; }
    if |frags| > 1 {
      assert Serialize(p) == frags[0] + "&" + Join(frags[1..], "&");
    }
  }

  /** Assigning the first `n` serialized fragments rebuilds the first `n` properties. */
  lemma {:induction false} AssignFragments(p: Params, n: nat)
    requires Clean(p)
    requires n <= |p|
    ensures Assign(Fragments(p)[..n]) == p[..n]
  {
    if n > 0 {
      var frags := Fragments(p)[..n];
      assert frags[..n - 1] == Fragments(p)[..n - 1];
      var k, v := p[n - 1].0, p[n - 1].1;
      assert frags[n - 1] == k + "=" + v;
      AssignFragments(p, n - 1);
      DecodeEncodedFragment(k, v);
      var prev := p[..n - 1];
      assert UniqueKeys(prev) by {
        forall i, j | 0 <= i < j < |prev| ensures prev[i].0 != prev[j].0 {
          assert prev[i] == p[i] && prev[j] == p[j];
        }
      }
      forall i | 0 <= i < |prev| ensures prev[i].0 != k {
        assert prev[i] == p[i];
      }
      GetAbsent(prev, k);
      SetUnique(prev, k, v);
      assert prev + [(k, v)] == p[..n];
    }
  }

  /** A name no property carries reads as undefined. */
  lemma {:induction false} GetAbsent(p: Params, k: string)
    requires forall i :: 0 <= i < |p| ==> p[i].0 != k
    ensures Get(p, k).None?
  {
    if |p| > 0 {
      GetAbsent(p[1..], k);
    }
  }

  /** Re-encoding is stable: deserializing the serialization of deserialized params gives
      the same params back. */
  lemma ReserializeStable(query: string)
    ensures Deserialize(Serialize(Deserialize(query))) == Deserialize(query)
  {
    DeserializeClean(query, '&');
    RoundTrip(Deserialize(query));
  }

  /** A serialization of params free of `c` (other than `&` and `=`) is free of `c`. */
  lemma SerializeFree(p: Params, c: char)
    requires c != '&' && c != '='
    requires FreeOf(p, c)
    ensures c !in Serialize(p)
  {
    var frags := Fragments(p);
    forall i | 0 <= i < |frags| ensures c !in frags[i] {
      assert frags[i] == p[i].0 + "=" + p[i].1;
    }
    JoinFree(frags, "&", c);
  }
}
