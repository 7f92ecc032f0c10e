/** mZOrderConfig: the records of the layers tentatively placed on planes, kept in
    ascending order of their requested z-order. */
module ZOrder {
  import opened Layers

  /** Every record's z-order is at least that of the records before it. */
  predicate SortedByZOrder(c: seq<ZOrderLayer>)
  {
    forall i, j :: 0 <= i < j < |c| ==> c[i].zorder <= c[j].zorder
  }

  /** The layers the configuration refers to. */
  function LayersOf(c: seq<ZOrderLayer>): set<nat>
  {
    set r | r in c :: r.layer
  }

  /** mZOrderConfig.add: the record goes after every record whose z-order is not larger. */
  function Insert(c: seq<ZOrderLayer>, r: ZOrderLayer): (res: seq<ZOrderLayer>)
    ensures |res| == |c| + 1
    ensures forall x :: x in res <==> x in c || x == r
  {
    if c == [] then [r]
    else if r.zorder < c[0].zorder then [r] + c
    else [c[0]] + Insert(c[1..], r)
  }

  /** mZOrderConfig.remove: drops the first occurrence of the record, if any. */
  function Remove(c: seq<ZOrderLayer>, r: ZOrderLayer): (res: seq<ZOrderLayer>)
    ensures forall x :: x in res ==> x in c
  {
    if c == [] then []
    else if c[0] == r then c[1..]
    else [c[0]] + Remove(c[1..], r)
  }

  /** A configuration that refers to no layer is empty. */
  lemma NoLayersMeansEmpty(c: seq<ZOrderLayer>)
    ensures LayersOf(c) == {} <==> c == []
  {
    if c != [] {
      assert c[0].layer in LayersOf(c);
    }
  }

  lemma {:induction false} InsertKeepsSorted(c: seq<ZOrderLayer>, r: ZOrderLayer)
    requires SortedByZOrder(c)
    ensures SortedByZOrder(Insert(c, r))
  {
    if c != [] && r.zorder >= c[0].zorder {
      var tl := c[1..];
      HeadBelowRest(c);
      InsertKeepsSorted(tl, r);
      var t := Insert(tl, r);
      assert forall x :: x in t ==> c[0].zorder <= x.zorder;
      var res := [c[0]] + t;
      forall i, j | 0 <= i < j < |res| ensures res[i].zorder <= res[j].zorder {
        assert res[j] == t[j - 1];
        if i > 0 {
          assert res[i] == t[i - 1];
        }
      }
      assert Insert(c, r) == res;
    }
  }

  /** Where mZOrderConfig.add puts a record: after every record whose z-order is not
      larger and, in a sorted configuration, before every record whose z-order is. */
  lemma {:induction false} InsertPosition(c: seq<ZOrderLayer>, r: ZOrderLayer) returns (k: nat)
    ensures k <= |c| && Insert(c, r) == c[..k] + [r] + c[k..]
    ensures forall j :: 0 <= j < k ==> c[j].zorder <= r.zorder
    ensures SortedByZOrder(c) ==> forall j :: k <= j < |c| ==> r.zorder < c[j].zorder
  {
    if c == [] {
      k := 0;
    } else if r.zorder < c[0].zorder {
      k := 0;
      assert c[..0] == [] && c[0..] == c;
    } else {
      var tl := c[1..];
      var k' := InsertPosition(tl, r);
      k := k' + 1;
      assert c[..k] == [c[0]] + tl[..k'];
      assert c[k..] == tl[k'..];
      assert forall j :: 1 <= j < k ==> c[j] == tl[j - 1];
      if SortedByZOrder(c) {
        HeadBelowRest(c);
        assert forall j :: k <= j < |c| ==> c[j] == tl[j - 1];
      }
    }
  }

  /** In a sorted configuration the first record is not above any other, and the rest is
      sorted. */
  lemma HeadBelowRest(c: seq<ZOrderLayer>)
    requires SortedByZOrder(c) && c != []
    ensures SortedByZOrder(c[1..])
    ensures forall x :: x in c[1..] ==> c[0].zorder <= x.zorder
  {
    forall x | x in c[1..] ensures c[0].zorder <= x.zorder {
      var k :| 0 <= k < |c[1..]| && c[1..][k] == x;
      assert c[k + 1] == x;
    }
  }

  lemma {:induction false} InsertContents(c: seq<ZOrderLayer>, r: ZOrderLayer)
    ensures multiset(Insert(c, r)) == multiset(c) + multiset{r}
    ensures LayersOf(Insert(c, r)) == LayersOf(c) + {r.layer}
  {
    if c != [] && r.zorder >= c[0].zorder {
      InsertContents(c[1..], r);
      assert c == [c[0]] + c[1..];
    }
  }

  /** Removing a record that was just inserted gives back the configuration as it was. */
  lemma {:induction false} RemoveAfterInsert(c: seq<ZOrderLayer>, r: ZOrderLayer)
    requires r !in c
    ensures Remove(Insert(c, r), r) == c
  {
    if c != [] && r.zorder >= c[0].zorder {
      assert c[0] != r;
      assert r !in c[1..];
      RemoveAfterInsert(c[1..], r);
      assert Insert(c, r) == [c[0]] + Insert(c[1..], r);
    }
  }

  lemma {:induction false} RemoveContents(c: seq<ZOrderLayer>, r: ZOrderLayer)
    requires r in c
    ensures multiset(Remove(c, r)) == multiset(c) - multiset{r}
  {
    if c[0] != r {
      RemoveContents(c[1..], r);
      assert c == [c[0]] + c[1..];
    } else {
      assert c == [c[0]] + c[1..];
    }
  }
}
