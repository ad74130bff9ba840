/**
 * Evaluated MSBuild items (MSBuildItemEvaluated): an item type name, an include and a
 * metadata table.  The same item object is shared by the "evaluated" and the "evaluated
 * ignoring condition" lists of a project, so it is a heap object whose metadata can be
 * updated in place.
 */
module MSBuildItems {
  import opened Wrappers
  import opened Strings

  class EvaluatedItem {
    const name: string
    const inc: string
    /** Metadata name to evaluated value. */
    var metadata: map<string, string>

    constructor (name: string, inc: string, metadata: map<string, string>)
      ensures this.name == name && this.inc == inc && this.metadata == metadata
    {
      this.name := name;
      this.inc := inc;
      this.metadata := metadata;
    }

    /** Metadata.GetValue: the value of a metadata entry, None when it is absent. */
    function GetValue(key: string): (r: Option<string>)
      reads this
      ensures r.Some? <==> key in metadata
      ensures r.Some? ==> r.value == metadata[key]
    {
      if key in metadata then Some(metadata[key]) else None
    }
  }

  /** The item has the given type name and include (the RemoveAll / update predicate). */
  predicate Matches(it: EvaluatedItem, name: string, inc: string)
  {
    it.name == name && it.inc == inc
  }

  /** List.RemoveAll(it => it.Name == name && it.Include == include). */
  function Without(items: seq<EvaluatedItem>, name: string, inc: string): (r: seq<EvaluatedItem>)
    ensures |r| <= |items|
    ensures forall i :: 0 <= i < |r| ==> !Matches(r[i], name, inc)
    ensures forall i :: 0 <= i < |r| ==> r[i] in items
    ensures forall i :: 0 <= i < |items| && !Matches(items[i], name, inc) ==> items[i] in r
  {
    if items == [] then []
    else
      var rest := Without(items[1..], name, inc);
      assert forall i :: 1 <= i < |items| ==> items[i] == items[1..][i - 1];
      if Matches(items[0], name, inc) then rest else [items[0]] + rest
  }

  /** Removal works piecewise, so the relative order of the items that stay is kept. */
  lemma {:induction false} WithoutAppend(a: seq<EvaluatedItem>, b: seq<EvaluatedItem>, name: string, inc: string)
    ensures Without(a + b, name, inc) == Without(a, name, inc) + Without(b, name, inc)
  {
    if a != [] {
      assert (a + b)[0] == a[0] && (a + b)[1..] == a[1..] + b;
      WithoutAppend(a[1..], b, name, inc);
      var head := if Matches(a[0], name, inc) then [] else [a[0]];
      assert Without(a + b, name, inc) == head + Without(a[1..] + b, name, inc);
      assert Without(a, name, inc) == head + Without(a[1..], name, inc);
    } else {
      assert a + b == b;
    }
  }

  /** RemoveAll keeps, in their order, exactly the items at the places where nothing matches. */
  lemma WithoutPicks(items: seq<EvaluatedItem>, name: string, inc: string)
    ensures exists idx :: Picks(Without(items, name, inc), items, idx) &&
                          forall i :: 0 <= i < |items| ==> (i in idx <==> !Matches(items[i], name, inc))
  {
    var idx := WithoutPlaces(items, name, inc);
  }

  /** The places Without keeps. */
  lemma {:induction false} WithoutPlaces(items: seq<EvaluatedItem>, name: string, inc: string) returns (idx: seq<int>)
    ensures Picks(Without(items, name, inc), items, idx)
    ensures forall i :: 0 <= i < |items| ==> (i in idx <==> !Matches(items[i], name, inc))
  {
    if items == [] {
      idx := [];
    } else {
      var tail := items[1..];
      var kept := !Matches(items[0], name, inc);
      var rest := Without(tail, name, inc);
      var places := WithoutPlaces(tail, name, inc);
      PicksCons(items[0], rest, tail, places, kept);
      assert items == [items[0]] + tail;
      assert Without(items, name, inc) == if kept then [items[0]] + rest else rest;
      idx := Shifted(places, kept);
      forall i | 0 <= i < |items|
        ensures i in idx <==> !Matches(items[i], name, inc)
      {
        if i > 0 {
          assert items[i] == tail[i - 1];
        }
      }
    }
  }

  // ----- filters keep order and multiplicity -----

  /** `r` is the subsequence of `items` at the strictly increasing places `idx`. */
  ghost predicate Picks<T>(r: seq<T>, items: seq<T>, idx: seq<int>)
  {
    && |idx| == |r|
    && (forall k :: 0 <= k < |idx| ==> 0 <= idx[k] < |items| && r[k] == items[idx[k]])
    && (forall k, l :: 0 <= k < l < |idx| ==> idx[k] < idx[l])
  }

  /** The places `idx` moved one on, past a new head, with the head's own place in front when it is kept. */
  function Shifted(idx: seq<int>, kept: bool): (r: seq<int>)
  {
    (if kept then [0] else []) + Succ(idx)
  }

  /** Each place of `idx` moved one on. */
  function Succ(idx: seq<int>): (r: seq<int>)
    ensures |r| == |idx| && forall k :: 0 <= k < |idx| ==> r[k] == idx[k] + 1
  {
    seq(|idx|, k requires 0 <= k < |idx| => idx[k] + 1)
  }

  /** A filter over a list with one more head: the head is kept or not, the rest is picked as before. */
  lemma PicksCons<T>(x: T, r: seq<T>, items: seq<T>, idx: seq<int>, kept: bool)
    requires Picks(r, items, idx)
    ensures Picks(if kept then [x] + r else r, [x] + items, Shifted(idx, kept))
    ensures forall i :: 0 <= i <= |items| ==> (i in Shifted(idx, kept) <==> if i == 0 then kept else i - 1 in idx)
  {
    PicksSucc(x, r, items, idx);
    if kept {
      PicksHead(x, r, [x] + items, Succ(idx));
    }
    SuccPlaces(idx, |items|);
    if kept {
      assert forall i :: i in [0] + Succ(idx) <==> i == 0 || i in Succ(idx);
    } else {
      assert Shifted(idx, kept) == Succ(idx);
    }
  }

  /** The picks of the rest are picks of the longer list, one place on. */
  lemma PicksSucc<T>(x: T, r: seq<T>, items: seq<T>, idx: seq<int>)
    requires Picks(r, items, idx)
    ensures Picks(r, [x] + items, Succ(idx))
  {
    var s := Succ(idx);
    forall k | 0 <= k < |s|
      ensures 0 <= s[k] < |[x] + items| && r[k] == ([x] + items)[s[k]]
    {
      assert ([x] + items)[idx[k] + 1] == items[idx[k]];
    }
  }

  /** Keeping the head puts its place, 0, in front of places that are all later. */
  lemma PicksHead<T>(x: T, r: seq<T>, items: seq<T>, s: seq<int>)
    requires Picks(r, items, s) && items != [] && items[0] == x
    requires forall k :: 0 <= k < |s| ==> s[k] > 0
    ensures Picks([x] + r, items, [0] + s)
  {
    var s', r' := [0] + s, [x] + r;
    forall k | 1 <= k < |s'|
      ensures 0 <= s'[k] < |items| && r'[k] == items[s'[k]]
    {
      assert s'[k] == s[k - 1] && r'[k] == r[k - 1];
    }
    forall k, l | 0 <= k < l < |s'|
      ensures s'[k] < s'[l]
    {
      assert s'[l] == s[l - 1];
      if k > 0 { assert s'[k] == s[k - 1]; }
    }
  }

  /** The places taken by Succ: one on from each place in `idx`, and so never 0 when `idx` holds places. */
  lemma SuccPlaces(idx: seq<int>, n: int)
    requires forall k :: 0 <= k < |idx| ==> 0 <= idx[k]
    ensures forall i :: 0 <= i <= n ==> (i in Succ(idx) <==> i > 0 && i - 1 in idx)
  {
    var s := Succ(idx);
    forall i | 0 <= i <= n
      ensures i in s <==> i > 0 && i - 1 in idx
    {
      if i in s {
        var k :| 0 <= k < |s| && s[k] == i;
      }
      if i > 0 && i - 1 in idx {
        var k :| 0 <= k < |idx| && idx[k] == i - 1;
        assert s[k] == i;
      }
    }
  }

  /** Removing twice removes nothing more. */
  lemma {:induction false} WithoutIdempotent(items: seq<EvaluatedItem>, name: string, inc: string)
    ensures Without(Without(items, name, inc), name, inc) == Without(items, name, inc)
  {
    if items != [] {
      WithoutIdempotent(items[1..], name, inc);
      if !Matches(items[0], name, inc) {
        var rest := Without(items[1..], name, inc);
        assert ([items[0]] + rest)[1..] == rest;
      }
    }
  }

  /** Items with no match are kept as they are. */
  lemma {:induction false} WithoutNoMatch(items: seq<EvaluatedItem>, name: string, inc: string)
    requires forall i :: 0 <= i < |items| ==> !Matches(items[i], name, inc)
    ensures Without(items, name, inc) == items
  {
    if items != [] {
      WithoutNoMatch(items[1..], name, inc);
      assert items == [items[0]] + items[1..];
    }
  }

  /**
   * Writes the metadata `overlay` into every item of `items` with this name and include;
   * an item listed twice gets the same overlay twice, which changes nothing the second time.
   */
  method UpdateMatching(items: seq<EvaluatedItem>, name: string, inc: string, overlay: map<string, string>)
    modifies set x | x in items
    ensures forall x: EvaluatedItem :: x in items && Matches(x, name, inc) ==> x.metadata == old(x.metadata) + overlay
    ensures forall x: EvaluatedItem :: x in items && !Matches(x, name, inc) ==> x.metadata == old(x.metadata)
  {
    var k := 0;
    while k < |items|
      invariant 0 <= k <= |items|
      invariant forall x: EvaluatedItem :: x in items[..k] && Matches(x, name, inc) ==> x.metadata == old(x.metadata) + overlay
      invariant forall x: EvaluatedItem :: x in items && !(x in items[..k] && Matches(x, name, inc)) ==> x.metadata == old(x.metadata)
    {
      var item := items[k];
      assert items[..k + 1] == items[..k] + [item];
      if Matches(item, name, inc) {
        item.metadata := item.metadata + overlay;
      }
      k := k + 1;
    }
    assert items[..k] == items;
  }
}
