/** The parse-tree flattening helpers of `CCGParse`: a CCG derivation becomes
    a parent-pointer array and a category array laid out the same way. Words
    occupy slots `0 .. #leaves-1` (a leaf sits at its head index); internal
    nodes are numbered in pre-order from `#leaves + 1` and node number `n`
    sits at slot `n - 1`; a slot holds the number of the enclosing node, 0
    for the root. */
module CcgParse {
  import opened Results
  import opened Text

  /** A derivation node: a word leaf with its position in the sentence, or
      an internal node with its ordered children. Both carry a category. */
  datatype SyntaxTree =
    | Leaf(category: string, headIndex: int)
    | Node(category: string, children: seq<SyntaxTree>)

  /** `getSize`: every node, leaf or internal, counts one. */
  function Size(t: SyntaxTree): (n: nat)
    ensures n >= 1
    ensures t.Node? ==> n > |t.children|
  {
    match t
    case Leaf(_, _) => 1
    case Node(_, cs) => 1 + SizeAll(cs)
  }

  function SizeAll(cs: seq<SyntaxTree>): (n: nat)
    ensures n >= |cs|
  {
    if |cs| == 0 then 0 else Size(cs[0]) + SizeAll(cs[1..])
  }

  /** The number of internal nodes. */
  function Internal(t: SyntaxTree): nat
  {
    match t
    case Leaf(_, _) => 0
    case Node(_, cs) => 1 + InternalAll(cs)
  }

  function InternalAll(cs: seq<SyntaxTree>): nat
  {
    if |cs| == 0 then 0 else Internal(cs[0]) + InternalAll(cs[1..])
  }

  /** The head indices of `getWords()`, left to right; its length is the
      number of leaves. */
  function Heads(t: SyntaxTree): seq<int>
  {
    match t
    case Leaf(_, h) => [h]
    case Node(_, cs) => HeadsAll(cs)
  }

  function HeadsAll(cs: seq<SyntaxTree>): seq<int>
  {
    if |cs| == 0 then [] else Heads(cs[0]) + HeadsAll(cs[1..])
  }

  /** A tree is its leaves plus its internal nodes. */
  lemma {:induction false} SizeSplits(t: SyntaxTree)
    ensures Size(t) == |Heads(t)| + Internal(t)
    decreases t, 1
  {
    match t
    case Leaf(_, _) =>
    case Node(_, cs) => SizeAllSplits(cs);
  }

  lemma {:induction false} SizeAllSplits(cs: seq<SyntaxTree>)
    ensures SizeAll(cs) == |HeadsAll(cs)| + InternalAll(cs)
    decreases cs, 0
  {
    if |cs| > 0 {
      SizeSplits(cs[0]);
      SizeAllSplits(cs[1..]);
    }
  }

  /** `parseParents` on the array `p`, for the internal node `t` numbered
      `currentId` whose enclosing node is `parentId`. It returns the updated
      array and the largest number used in the subtree. The subtree's
      internal nodes take the consecutive numbers `currentId ..
      currentId + Internal(t) - 1`; only their slots and the slots of the
      subtree's words change; each internal slot but the subtree root's
      points to a smaller number no smaller than `currentId`, and each word
      slot to a number of the subtree. */
  function ParseParents(p: seq<int>, t: SyntaxTree, parentId: int, currentId: int): (r: (seq<int>, int))
    requires t.Node?
    requires 1 <= currentId && currentId - 1 + Internal(t) <= |p|
    requires forall h :: h in Heads(t) ==> 0 <= h < currentId - 1
    ensures |r.0| == |p|
    ensures r.1 == currentId - 1 + Internal(t)
    ensures forall i {:trigger r.0[i]} :: 0 <= i < |p| && !(currentId - 1 <= i < r.1) && i !in Heads(t) ==> r.0[i] == p[i]
    ensures r.0[currentId - 1] == parentId
    ensures forall i :: currentId <= i < r.1 ==> currentId <= r.0[i] <= i
    ensures forall h :: h in Heads(t) ==> currentId <= r.0[h] <= r.1
    decreases t, 1
  {
    assert Heads(t) == HeadsAll(t.children);
    ParseChildren(p[currentId - 1 := parentId], t.children, currentId, currentId)
  }

  /** The `for` loop of `parseParents` over the children `cs` of the node
      numbered `currentId`, `nextId` being the largest number used so far. */
  function ParseChildren(p: seq<int>, cs: seq<SyntaxTree>, currentId: int, nextId: int): (r: (seq<int>, int))
    requires 1 <= currentId <= nextId && nextId + InternalAll(cs) <= |p|
    requires forall h :: h in HeadsAll(cs) ==> 0 <= h < currentId - 1
    ensures |r.0| == |p|
    ensures r.1 == nextId + InternalAll(cs)
    ensures forall i {:trigger r.0[i]} :: 0 <= i < |p| && !(nextId <= i < r.1) && i !in HeadsAll(cs) ==> r.0[i] == p[i]
    ensures forall i :: nextId <= i < r.1 ==> currentId <= r.0[i] <= i
    ensures forall h :: h in HeadsAll(cs) ==> currentId <= r.0[h] <= r.1
    decreases cs, 1
  {
    if |cs| == 0 then (p, nextId)
    else if cs[0].Leaf? then
      var c := cs[0];
      HeadsAllSplit(cs, currentId - 1);
      assert Heads(c) == [c.headIndex];
      assert c.headIndex in Heads(c);
      ParseChildren(p[c.headIndex := currentId], cs[1..], currentId, nextId)
    else ParseInternalChild(p, cs, currentId, nextId)
  }

  /** The loop step for an internal first child: number it `nextId+1`,
      walk it, and continue with the remaining children. */
  function ParseInternalChild(p: seq<int>, cs: seq<SyntaxTree>, currentId: int, nextId: int): (r: (seq<int>, int))
    requires |cs| > 0 && cs[0].Node?
    requires 1 <= currentId <= nextId && nextId + InternalAll(cs) <= |p|
    requires forall h :: h in HeadsAll(cs) ==> 0 <= h < currentId - 1
    ensures |r.0| == |p|
    ensures r.1 == nextId + InternalAll(cs)
    ensures forall i {:trigger r.0[i]} :: 0 <= i < |p| && !(nextId <= i < r.1) && i !in HeadsAll(cs) ==> r.0[i] == p[i]
    ensures forall i :: nextId <= i < r.1 ==> currentId <= r.0[i] <= i
    ensures forall h :: h in HeadsAll(cs) ==> currentId <= r.0[h] <= r.1
    decreases cs, 0
  {
    HeadsAllSplit(cs, currentId - 1);
    var sub := ParseParents(p, cs[0], currentId, nextId + 1);
    ParseChildren(sub.0, cs[1..], currentId, sub.1)
  }

  /** Inside the loop of `parseParents`, a word child `k` of the node
      numbered `currentId` ends up pointing to it: its head index holds
      `currentId` once the loop is over. */
  lemma {:induction false} WordChildPointsToCurrent(p: seq<int>, cs: seq<SyntaxTree>, currentId: int, nextId: int, k: nat)
    requires 1 <= currentId <= nextId && nextId + InternalAll(cs) <= |p|
    requires forall h :: h in HeadsAll(cs) ==> 0 <= h < currentId - 1
    requires Distinct(HeadsAll(cs)) && k < |cs| && cs[k].Leaf?
    ensures 0 <= cs[k].headIndex < |p|
    ensures ParseChildren(p, cs, currentId, nextId).0[cs[k].headIndex] == currentId
    decreases k
  {
    if k == 0 {
      PointLeafHere(p, cs, currentId, nextId);
    } else {
      assert cs[1..][k - 1] == cs[k];
      if cs[0].Leaf? {
        PointLeafStep(p, cs, currentId, nextId);
        WordChildPointsToCurrent(p[cs[0].headIndex := currentId], cs[1..], currentId, nextId, k - 1);
      } else {
        PointNodeStep(p, cs, currentId, nextId);
        var sub := ParseParents(p, cs[0], currentId, nextId + 1);
        WordChildPointsToCurrent(sub.0, cs[1..], currentId, sub.1, k - 1);
      }
    }
  }

  /** Inside the same loop, an internal child `k` is numbered right after
      the internal nodes of the children before it, and its own slot holds
      `currentId` once the loop is over. */
  lemma {:induction false} InternalChildPointsToCurrent(p: seq<int>, cs: seq<SyntaxTree>, currentId: int, nextId: int, k: nat)
    requires 1 <= currentId <= nextId && nextId + InternalAll(cs) <= |p|
    requires forall h :: h in HeadsAll(cs) ==> 0 <= h < currentId - 1
    requires Distinct(HeadsAll(cs)) && k < |cs| && cs[k].Node?
    ensures nextId + InternalBefore(cs, k) < |p|
    ensures ParseChildren(p, cs, currentId, nextId).0[nextId + InternalBefore(cs, k)] == currentId
    decreases k, 1
  {
    if k == 0 {
      PointNodeHere(p, cs, currentId, nextId);
    } else if cs[0].Leaf? {
      InternalChildAfterWord(p, cs, currentId, nextId, k);
    } else {
      InternalChildAfterInternal(p, cs, currentId, nextId, k);
    }
  }

  /** The step of `InternalChildPointsToCurrent` past a word first child. */
  lemma {:induction false} InternalChildAfterWord(p: seq<int>, cs: seq<SyntaxTree>, currentId: int, nextId: int, k: nat)
    requires 1 <= currentId <= nextId && nextId + InternalAll(cs) <= |p|
    requires forall h :: h in HeadsAll(cs) ==> 0 <= h < currentId - 1
    requires Distinct(HeadsAll(cs)) && 0 < k < |cs| && cs[k].Node? && cs[0].Leaf?
    ensures nextId + InternalBefore(cs, k) < |p|
    ensures ParseChildren(p, cs, currentId, nextId).0[nextId + InternalBefore(cs, k)] == currentId
    decreases k, 0
  {
    assert cs[1..][k - 1] == cs[k];
    PointLeafStep(p, cs, currentId, nextId);
    var p1 := p[cs[0].headIndex := currentId];
    InternalChildPointsToCurrent(p1, cs[1..], currentId, nextId, k - 1);
    assert InternalBefore(cs, k) == InternalBefore(cs[1..], k - 1);
  }

  /** The step past an internal first child, whose nodes take the numbers
      up to `nextId + Internal(cs[0])`. */
  lemma {:induction false} InternalChildAfterInternal(p: seq<int>, cs: seq<SyntaxTree>, currentId: int, nextId: int, k: nat)
    requires 1 <= currentId <= nextId && nextId + InternalAll(cs) <= |p|
    requires forall h :: h in HeadsAll(cs) ==> 0 <= h < currentId - 1
    requires Distinct(HeadsAll(cs)) && 0 < k < |cs| && cs[k].Node? && cs[0].Node?
    ensures nextId + InternalBefore(cs, k) < |p|
    ensures ParseChildren(p, cs, currentId, nextId).0[nextId + InternalBefore(cs, k)] == currentId
    decreases k, 0
  {
    assert cs[1..][k - 1] == cs[k];
    PointNodeStep(p, cs, currentId, nextId);
    var sub := ParseParents(p, cs[0], currentId, nextId + 1);
    InternalChildPointsToCurrent(sub.0, cs[1..], currentId, sub.1, k - 1);
    assert nextId + InternalBefore(cs, k) == sub.1 + InternalBefore(cs[1..], k - 1);
  }

  /** The number of internal nodes in the first `k` children. */
  function InternalBefore(cs: seq<SyntaxTree>, k: nat): (n: nat)
    requires k <= |cs|
    ensures n == InternalAll(cs[..k])
  {
    assert cs[..k] == if k == 0 then [] else [cs[0]] + cs[1..][..k - 1];
    if k == 0 then 0 else Internal(cs[0]) + InternalBefore(cs[1..], k - 1)
  }

  /** A word first child keeps the current number at its head index: the
      rest of the loop writes neither that slot nor any internal slot below
      `nextId`. */
  lemma PointLeafHere(p: seq<int>, cs: seq<SyntaxTree>, currentId: int, nextId: int)
    requires |cs| > 0 && cs[0].Leaf?
    requires 1 <= currentId <= nextId && nextId + InternalAll(cs) <= |p|
    requires forall h :: h in HeadsAll(cs) ==> 0 <= h < currentId - 1
    requires Distinct(HeadsAll(cs))
    ensures 0 <= cs[0].headIndex < |p|
    ensures ParseChildren(p, cs, currentId, nextId).0[cs[0].headIndex] == currentId
  {
    PointLeafStep(p, cs, currentId, nextId);
    var r := ParseChildren(p[cs[0].headIndex := currentId], cs[1..], currentId, nextId);
    assert r.0[cs[0].headIndex] == currentId;
  }

  /** An internal first child keeps the current number at its slot `nextId`. */
  lemma PointNodeHere(p: seq<int>, cs: seq<SyntaxTree>, currentId: int, nextId: int)
    requires |cs| > 0 && cs[0].Node?
    requires 1 <= currentId <= nextId && nextId + InternalAll(cs) <= |p|
    requires forall h :: h in HeadsAll(cs) ==> 0 <= h < currentId - 1
    requires Distinct(HeadsAll(cs))
    ensures nextId < |p|
    ensures ParseChildren(p, cs, currentId, nextId).0[nextId] == currentId
  {
    PointNodeStep(p, cs, currentId, nextId);
    var sub := ParseParents(p, cs[0], currentId, nextId + 1);
    var r := ParseChildren(sub.0, cs[1..], currentId, sub.1);
    assert r.0[nextId] == sub.0[nextId];
  }

  /** The loop step for a word first child, with what the rest of the loop
      needs and keeps: the word's slot is no head index of a later child. */
  lemma PointLeafStep(p: seq<int>, cs: seq<SyntaxTree>, currentId: int, nextId: int)
    requires |cs| > 0 && cs[0].Leaf?
    requires 1 <= currentId <= nextId && nextId + InternalAll(cs) <= |p|
    requires forall h :: h in HeadsAll(cs) ==> 0 <= h < currentId - 1
    requires Distinct(HeadsAll(cs))
    ensures 0 <= cs[0].headIndex < currentId - 1 && cs[0].headIndex !in HeadsAll(cs[1..])
    ensures InternalAll(cs) == InternalAll(cs[1..])
    ensures forall h :: h in HeadsAll(cs[1..]) ==> 0 <= h < currentId - 1
    ensures Distinct(HeadsAll(cs[1..]))
    ensures ParseChildren(p, cs, currentId, nextId)
            == ParseChildren(p[cs[0].headIndex := currentId], cs[1..], currentId, nextId)
  {
    var c := cs[0];
    HeadsAllSplit(cs, currentId - 1);
    DistinctSplit(Heads(c), HeadsAll(cs[1..]));
    assert Heads(c) == [c.headIndex];
    assert c.headIndex in Heads(c);
  }

  /** The loop step for an internal first child: its own slot `nextId`
      holds the current number, and the rest of the loop starts after its
      internal nodes. */
  lemma PointNodeStep(p: seq<int>, cs: seq<SyntaxTree>, currentId: int, nextId: int)
    requires |cs| > 0 && cs[0].Node?
    requires 1 <= currentId <= nextId && nextId + InternalAll(cs) <= |p|
    requires forall h :: h in HeadsAll(cs) ==> 0 <= h < currentId - 1
    requires Distinct(HeadsAll(cs))
    ensures forall h :: h in Heads(cs[0]) ==> 0 <= h < currentId - 1
    ensures forall h :: h in HeadsAll(cs[1..]) ==> 0 <= h < currentId - 1
    ensures Distinct(HeadsAll(cs[1..]))
    ensures InternalAll(cs) == Internal(cs[0]) + InternalAll(cs[1..])
    ensures var sub := ParseParents(p, cs[0], currentId, nextId + 1);
      && sub.0[nextId] == currentId
      && ParseChildren(p, cs, currentId, nextId) == ParseChildren(sub.0, cs[1..], currentId, sub.1)
  {
    HeadsAllSplit(cs, currentId - 1);
    DistinctSplit(Heads(cs[0]), HeadsAll(cs[1..]));
  }


  /** `parseCategories`: the same walk as `ParseParents`, writing each node's
      category instead of its parent's number. Slots of the array that are
      never written stay `None` (Java's `null`). The subtree's internal slots
      and word slots all end up holding a category, the subtree root's slot
      its own. */
  function ParseCategories(c: seq<Option<string>>, t: SyntaxTree, parentId: int, currentId: int): (r: (seq<Option<string>>, int))
    requires t.Node?
    requires 1 <= currentId && currentId - 1 + Internal(t) <= |c|
    requires forall h :: h in Heads(t) ==> 0 <= h < currentId - 1
    ensures |r.0| == |c|
    ensures r.1 == currentId - 1 + Internal(t)
    ensures forall i {:trigger r.0[i]} :: 0 <= i < |c| && !(currentId - 1 <= i < r.1) && i !in Heads(t) ==> r.0[i] == c[i]
    ensures r.0[currentId - 1] == Some(t.category)
    ensures forall i :: currentId <= i < r.1 ==> r.0[i].Some?
    ensures forall h :: h in Heads(t) ==> r.0[h].Some?
    decreases t, 1
  {
    assert Heads(t) == HeadsAll(t.children);
    ParseCategoriesChildren(c[currentId - 1 := Some(t.category)], t.children, currentId, currentId)
  }

  function ParseCategoriesChildren(c: seq<Option<string>>, cs: seq<SyntaxTree>, currentId: int, nextId: int): (r: (seq<Option<string>>, int))
    requires 1 <= currentId <= nextId && nextId + InternalAll(cs) <= |c|
    requires forall h :: h in HeadsAll(cs) ==> 0 <= h < currentId - 1
    ensures |r.0| == |c|
    ensures r.1 == nextId + InternalAll(cs)
    ensures forall i {:trigger r.0[i]} :: 0 <= i < |c| && !(nextId <= i < r.1) && i !in HeadsAll(cs) ==> r.0[i] == c[i]
    ensures forall i :: nextId <= i < r.1 ==> r.0[i].Some?
    ensures forall h :: h in HeadsAll(cs) ==> r.0[h].Some?
    decreases cs, 1
  {
    if |cs| == 0 then (c, nextId)
    else if cs[0].Leaf? then
      var n := cs[0];
      HeadsAllSplit(cs, currentId - 1);
      assert Heads(n) == [n.headIndex];
      assert n.headIndex in Heads(n);
      ParseCategoriesChildren(c[n.headIndex := Some(n.category)], cs[1..], currentId, nextId)
    else ParseInternalCategories(c, cs, currentId, nextId)
  }

  /** The loop step of `parseCategories` for an internal first child. */
  function ParseInternalCategories(c: seq<Option<string>>, cs: seq<SyntaxTree>, currentId: int, nextId: int): (r: (seq<Option<string>>, int))
    requires |cs| > 0 && cs[0].Node?
    requires 1 <= currentId <= nextId && nextId + InternalAll(cs) <= |c|
    requires forall h :: h in HeadsAll(cs) ==> 0 <= h < currentId - 1
    ensures |r.0| == |c|
    ensures r.1 == nextId + InternalAll(cs)
    ensures forall i {:trigger r.0[i]} :: 0 <= i < |c| && !(nextId <= i < r.1) && i !in HeadsAll(cs) ==> r.0[i] == c[i]
    ensures forall i :: nextId <= i < r.1 ==> r.0[i].Some?
    ensures forall h :: h in HeadsAll(cs) ==> r.0[h].Some?
    decreases cs, 0
  {
    HeadsAllSplit(cs, currentId - 1);
    var sub := ParseCategories(c, cs[0], currentId, nextId + 1);
    ParseCategoriesChildren(sub.0, cs[1..], currentId, sub.1)
  }

  /** The words' head indices lie within the sentence. */
  predicate HeadsInSentence(t: SyntaxTree)
  {
    forall h :: h in Heads(t) ==> 0 <= h < |Heads(t)|
  }

  /** The words' head indices are exactly the sentence positions
      `0 .. #leaves-1`, each once. */
  predicate HeadsArePositions(t: SyntaxTree)
  {
    var hs := Heads(t);
    && HeadsInSentence(t)
    && (forall i :: 0 <= i < |hs| ==> i in hs)
    && Distinct(hs)
  }

  predicate Distinct(hs: seq<int>)
  {
    forall i, j :: 0 <= i < j < |hs| ==> hs[i] != hs[j]
  }

  lemma DistinctSplit(a: seq<int>, b: seq<int>)
    requires Distinct(a + b)
    ensures Distinct(a) && Distinct(b)
    ensures forall x :: x in a ==> x !in b
  {
    forall i, j | 0 <= i < j < |a|
      ensures a[i] != a[j]
    {
      assert (a + b)[i] == a[i] && (a + b)[j] == a[j];
    }
    forall i, j | 0 <= i < j < |b|
      ensures b[i] != b[j]
    {
      assert (a + b)[|a| + i] == b[i] && (a + b)[|a| + j] == b[j];
    }
    forall i, j | 0 <= i < |a| && 0 <= j < |b|
      ensures a[i] != b[j]
    {
      assert (a + b)[i] == a[i] && (a + b)[|a| + j] == b[j];
    }
  }

  /** `constTreeParents`: a zero array of `getSize` slots, filled from the
      root numbered `#leaves + 1` when the root is internal and left as the
      single 0 when it is a word. */
  function ConstTreeParents(t: SyntaxTree): (parents: seq<int>)
    requires t.Node? ==> HeadsInSentence(t)
    ensures |parents| == Size(t)
    ensures t.Leaf? ==> parents == [0]
    ensures t.Node? ==> |Heads(t)| < |parents|
    ensures t.Node? ==>
              var leaves := |Heads(t)|;
              && parents[leaves] == 0
              && (forall i :: leaves < i < |parents| ==> leaves + 1 <= parents[i] <= i)
              && (forall h :: h in Heads(t) ==> leaves + 1 <= parents[h] <= |parents|)
  {
    var zeros := seq(Size(t), _ => 0);
    if t.Leaf? then zeros
    else
      SizeSplits(t);
      ParseParents(zeros, t, 0, |Heads(t)| + 1).0
  }

  /** `constTreeCategories`: the category array laid out like the parents. */
  function ConstTreeCategories(t: SyntaxTree): (categories: seq<Option<string>>)
    requires t.Node? ==> HeadsInSentence(t)
    ensures |categories| == Size(t)
    ensures t.Leaf? ==> categories == [None]
    ensures t.Node? ==> |Heads(t)| < |categories| && categories[|Heads(t)|] == Some(t.category)
    ensures t.Node? && HeadsArePositions(t) ==> forall i :: 0 <= i < |categories| ==> categories[i].Some?
  {
    var nulls := seq(Size(t), _ => None);
    if t.Leaf? then nulls
    else
      SizeSplits(t);
      ParseCategories(nulls, t, 0, |Heads(t)| + 1).0
  }

  /** A parent-pointer array over `leaves` words: slot `leaves` is the root
      (parent 0), every other slot points to an internal node (a number above
      `leaves`), and an internal node's parent has a smaller number than the
      node itself. */
  ghost predicate WellFormedParents(a: seq<int>, leaves: nat)
  {
    && leaves < |a|
    && a[leaves] == 0
    && forall i :: 0 <= i < |a| && i != leaves ==> leaves + 1 <= a[i] <= |a| && (i > leaves ==> a[i] <= i)
  }

  /** When the words occupy exactly the sentence positions, the parents array
      of an internal root is well formed: every slot is written. */
  lemma ConstTreeParentsWellFormed(t: SyntaxTree)
    requires t.Node? && HeadsArePositions(t)
    ensures WellFormedParents(ConstTreeParents(t), |Heads(t)|)
  {
    var a := ConstTreeParents(t);
    var leaves := |Heads(t)|;
    SizeSplits(t);
    forall i | 0 <= i < |a| && i != leaves
      ensures leaves + 1 <= a[i] <= |a| && (i > leaves ==> a[i] <= i)
    {
      if i < leaves {
        assert i in Heads(t);
      }
    }
  }

  /** Follows parent pointers `n` times from slot `i` (number `a[i]` is slot
      `a[i] - 1`), stopping at a slot whose pointer leads nowhere. */
  function Climb(a: seq<int>, i: int, n: nat): int
    decreases n
  {
    if n == 0 || !(0 <= i < |a|) || !(1 <= a[i] <= |a|) then i
    else Climb(a, a[i] - 1, n - 1)
  }

  /** In a well-formed parents array every slot reaches the root by following
      parent pointers: there are no cycles. */
  lemma {:induction false} ReachesRoot(a: seq<int>, leaves: nat, i: nat)
    requires WellFormedParents(a, leaves) && i < |a|
    ensures exists n :: Climb(a, i, n) == leaves
    decreases if i < leaves then |a| else i - leaves
  {
    if i == leaves {
      assert Climb(a, i, 0) == leaves;
    } else {
      var j := a[i] - 1;
      ReachesRoot(a, leaves, j);
      var n: nat :| Climb(a, j, n) == leaves;
      assert Climb(a, i, n + 1) == leaves;
    }
  }

  /** Where each node of the subtree lands: its slot, the number of its
      enclosing node, and its category. Internal nodes come in pre-order,
      words at their head indices. */
  datatype Placement = Placement(slot: int, parent: int, category: string)

  function Layout(t: SyntaxTree, parentId: int, currentId: int): seq<Placement>
    requires t.Node?
    decreases t, 1
  {
    [Placement(currentId - 1, parentId, t.category)] + LayoutAll(t.children, currentId, currentId)
  }

  function LayoutAll(cs: seq<SyntaxTree>, currentId: int, nextId: int): seq<Placement>
    decreases cs, 0
  {
    if |cs| == 0 then []
    else
      var c := cs[0];
      if c.Leaf? then [Placement(c.headIndex, currentId, c.category)] + LayoutAll(cs[1..], currentId, nextId)
      else Layout(c, currentId, nextId + 1) + LayoutAll(cs[1..], currentId, nextId + Internal(c))
  }

  /** Writes the placements into an array in order. */
  function WriteAll<T>(a: seq<T>, pls: seq<Placement>, f: Placement -> T): (r: seq<T>)
    ensures |r| == |a|
    decreases |pls|
  {
    if |pls| == 0 then a
    else WriteAll(if 0 <= pls[0].slot < |a| then a[pls[0].slot := f(pls[0])] else a, pls[1..], f)
  }

  lemma {:induction false} WriteAllAppend<T>(a: seq<T>, x: seq<Placement>, y: seq<Placement>, f: Placement -> T)
    ensures WriteAll(a, x + y, f) == WriteAll(WriteAll(a, x, f), y, f)
    decreases |x|
  {
    if |x| > 0 {
      assert (x + y)[1..] == x[1..] + y;
      WriteAllAppend(if 0 <= x[0].slot < |a| then a[x[0].slot := f(x[0])] else a, x[1..], y, f);
    } else {
      assert x + y == y;
    }
  }

  function ParentOf(pl: Placement): int
  {
    pl.parent
  }

  function CategoryOf(pl: Placement): Option<string>
  {
    Some(pl.category)
  }

  /** `parseParents` writes exactly the parent numbers of the layout. */
  lemma {:induction false} ParseParentsFollowsLayout(p: seq<int>, t: SyntaxTree, parentId: int, currentId: int)
    requires t.Node?
    requires 1 <= currentId && currentId - 1 + Internal(t) <= |p|
    requires forall h :: h in Heads(t) ==> 0 <= h < currentId - 1
    ensures ParseParents(p, t, parentId, currentId).0 == WriteAll(p, Layout(t, parentId, currentId), ParentOf)
    decreases t, 1
  {
    assert Heads(t) == HeadsAll(t.children);
    var head := [Placement(currentId - 1, parentId, t.category)];
    WriteAllAppend(p, head, LayoutAll(t.children, currentId, currentId), ParentOf);
    ParseChildrenFollowsLayout(p[currentId - 1 := parentId], t.children, currentId, currentId);
  }

  lemma {:induction false} ParseChildrenFollowsLayout(p: seq<int>, cs: seq<SyntaxTree>, currentId: int, nextId: int)
    requires 1 <= currentId <= nextId && nextId + InternalAll(cs) <= |p|
    requires forall h :: h in HeadsAll(cs) ==> 0 <= h < currentId - 1
    ensures ParseChildren(p, cs, currentId, nextId).0 == WriteAll(p, LayoutAll(cs, currentId, nextId), ParentOf)
    decreases cs, 2
  {
    if |cs| == 0 {
    } else if cs[0].Leaf? {
      ParseLeafFollowsLayout(p, cs, currentId, nextId);
    } else {
      ParseNodeFollowsLayout(p, cs, currentId, nextId);
    }
  }

  /** The first child's head indices and the rest's keep the bound on all. */
  lemma HeadsAllSplit(cs: seq<SyntaxTree>, bound: int)
    requires |cs| > 0
    requires forall h :: h in HeadsAll(cs) ==> 0 <= h < bound
    ensures HeadsAll(cs) == Heads(cs[0]) + HeadsAll(cs[1..])
    ensures forall h :: h in Heads(cs[0]) ==> 0 <= h < bound
    ensures forall h :: h in HeadsAll(cs[1..]) ==> 0 <= h < bound
  {
    assert forall h :: h in Heads(cs[0]) ==> h in HeadsAll(cs);
    assert forall h :: h in HeadsAll(cs[1..]) ==> h in HeadsAll(cs);
  }

  lemma {:induction false} ParseLeafFollowsLayout(p: seq<int>, cs: seq<SyntaxTree>, currentId: int, nextId: int)
    requires |cs| > 0 && cs[0].Leaf?
    requires 1 <= currentId <= nextId && nextId + InternalAll(cs) <= |p|
    requires forall h :: h in HeadsAll(cs) ==> 0 <= h < currentId - 1
    ensures ParseChildren(p, cs, currentId, nextId).0 == WriteAll(p, LayoutAll(cs, currentId, nextId), ParentOf)
    decreases cs, 1
  {
    var c := cs[0];
    HeadsAllSplit(cs, currentId - 1);
    assert Heads(c) == [c.headIndex];
    assert c.headIndex in Heads(c);
    assert InternalAll(cs) == InternalAll(cs[1..]);
    var head := [Placement(c.headIndex, currentId, c.category)];
    var p1 := p[c.headIndex := currentId];
    assert LayoutAll(cs, currentId, nextId) == head + LayoutAll(cs[1..], currentId, nextId);
    assert ParseChildren(p, cs, currentId, nextId) == ParseChildren(p1, cs[1..], currentId, nextId);
    assert WriteAll(p, head, ParentOf) == p1;
    WriteAllAppend(p, head, LayoutAll(cs[1..], currentId, nextId), ParentOf);
    ParseChildrenFollowsLayout(p1, cs[1..], currentId, nextId);
  }

  /** One step of the children's loop of `parseParents` when the first
      child is internal. */
  lemma ParseChildrenConsNode(p: seq<int>, cs: seq<SyntaxTree>, currentId: int, nextId: int)
    requires |cs| > 0 && cs[0].Node?
    requires 1 <= currentId <= nextId && nextId + InternalAll(cs) <= |p|
    requires forall h :: h in HeadsAll(cs) ==> 0 <= h < currentId - 1
    ensures forall h :: h in Heads(cs[0]) ==> 0 <= h < currentId - 1
    ensures forall h :: h in HeadsAll(cs[1..]) ==> 0 <= h < currentId - 1
    ensures ParseChildren(p, cs, currentId, nextId)
            == ParseChildren(WriteAll(p, Layout(cs[0], currentId, nextId + 1), ParentOf), cs[1..], currentId, nextId + Internal(cs[0]))
    decreases cs, 0
  {
    HeadsAllSplit(cs, currentId - 1);
    ParseParentsFollowsLayout(p, cs[0], currentId, nextId + 1);
  }

  lemma {:induction false} ParseNodeFollowsLayout(p: seq<int>, cs: seq<SyntaxTree>, currentId: int, nextId: int)
    requires |cs| > 0 && cs[0].Node?
    requires 1 <= currentId <= nextId && nextId + InternalAll(cs) <= |p|
    requires forall h :: h in HeadsAll(cs) ==> 0 <= h < currentId - 1
    ensures ParseChildren(p, cs, currentId, nextId).0 == WriteAll(p, LayoutAll(cs, currentId, nextId), ParentOf)
    decreases cs, 1
  {
    var c := cs[0];
    LayoutAllConsNode(cs, currentId, nextId);
    ParseChildrenConsNode(p, cs, currentId, nextId);
    var lay := Layout(c, currentId, nextId + 1);
    var next := nextId + Internal(c);
    var rest := LayoutAll(cs[1..], currentId, next);
    var q := WriteAll(p, lay, ParentOf);
    ParseChildrenFollowsLayout(q, cs[1..], currentId, next);
    WriteAllAppend(p, lay, rest, ParentOf);
    assert ParseChildren(p, cs, currentId, nextId).0 == ParseChildren(q, cs[1..], currentId, next).0;
  }

  /** `parseCategories` writes exactly the categories of the same layout. */
  lemma {:induction false} ParseCategoriesFollowsLayout(c: seq<Option<string>>, t: SyntaxTree, parentId: int, currentId: int)
    requires t.Node?
    requires 1 <= currentId && currentId - 1 + Internal(t) <= |c|
    requires forall h :: h in Heads(t) ==> 0 <= h < currentId - 1
    ensures ParseCategories(c, t, parentId, currentId).0 == WriteAll(c, Layout(t, parentId, currentId), CategoryOf)
    decreases t, 1
  {
    assert Heads(t) == HeadsAll(t.children);
    var head := [Placement(currentId - 1, parentId, t.category)];
    WriteAllAppend(c, head, LayoutAll(t.children, currentId, currentId), CategoryOf);
    ParseCategoriesChildrenFollowsLayout(c[currentId - 1 := Some(t.category)], t.children, currentId, currentId);
  }

  lemma {:induction false} ParseCategoriesChildrenFollowsLayout(c: seq<Option<string>>, cs: seq<SyntaxTree>, currentId: int, nextId: int)
    requires 1 <= currentId <= nextId && nextId + InternalAll(cs) <= |c|
    requires forall h :: h in HeadsAll(cs) ==> 0 <= h < currentId - 1
    ensures ParseCategoriesChildren(c, cs, currentId, nextId).0 == WriteAll(c, LayoutAll(cs, currentId, nextId), CategoryOf)
    decreases cs, 2
  {
    if |cs| == 0 {
    } else if cs[0].Leaf? {
      CategoriesLeafFollowsLayout(c, cs, currentId, nextId);
    } else {
      CategoriesNodeFollowsLayout(c, cs, currentId, nextId);
    }
  }

  lemma {:induction false} CategoriesLeafFollowsLayout(c: seq<Option<string>>, cs: seq<SyntaxTree>, currentId: int, nextId: int)
    requires |cs| > 0 && cs[0].Leaf?
    requires 1 <= currentId <= nextId && nextId + InternalAll(cs) <= |c|
    requires forall h :: h in HeadsAll(cs) ==> 0 <= h < currentId - 1
    ensures ParseCategoriesChildren(c, cs, currentId, nextId).0 == WriteAll(c, LayoutAll(cs, currentId, nextId), CategoryOf)
    decreases cs, 1
  {
    var n := cs[0];
    HeadsAllSplit(cs, currentId - 1);
    assert Heads(n) == [n.headIndex];
    assert n.headIndex in Heads(n);
    assert InternalAll(cs) == InternalAll(cs[1..]);
    var head := [Placement(n.headIndex, currentId, n.category)];
    var c1 := c[n.headIndex := Some(n.category)];
    assert LayoutAll(cs, currentId, nextId) == head + LayoutAll(cs[1..], currentId, nextId);
    assert ParseCategoriesChildren(c, cs, currentId, nextId) == ParseCategoriesChildren(c1, cs[1..], currentId, nextId);
    assert WriteAll(c, head, CategoryOf) == c1;
    WriteAllAppend(c, head, LayoutAll(cs[1..], currentId, nextId), CategoryOf);
    ParseCategoriesChildrenFollowsLayout(c1, cs[1..], currentId, nextId);
  }

  /** One step of the children's loop of `parseCategories` when the first
      child is internal. */
  lemma CategoriesChildrenConsNode(c: seq<Option<string>>, cs: seq<SyntaxTree>, currentId: int, nextId: int)
    requires |cs| > 0 && cs[0].Node?
    requires 1 <= currentId <= nextId && nextId + InternalAll(cs) <= |c|
    requires forall h :: h in HeadsAll(cs) ==> 0 <= h < currentId - 1
    ensures forall h :: h in Heads(cs[0]) ==> 0 <= h < currentId - 1
    ensures forall h :: h in HeadsAll(cs[1..]) ==> 0 <= h < currentId - 1
    ensures ParseCategoriesChildren(c, cs, currentId, nextId)
            == ParseCategoriesChildren(WriteAll(c, Layout(cs[0], currentId, nextId + 1), CategoryOf), cs[1..], currentId, nextId + Internal(cs[0]))
    decreases cs, 0
  {
    HeadsAllSplit(cs, currentId - 1);
    ParseCategoriesFollowsLayout(c, cs[0], currentId, nextId + 1);
  }

  lemma {:induction false} CategoriesNodeFollowsLayout(c: seq<Option<string>>, cs: seq<SyntaxTree>, currentId: int, nextId: int)
    requires |cs| > 0 && cs[0].Node?
    requires 1 <= currentId <= nextId && nextId + InternalAll(cs) <= |c|
    requires forall h :: h in HeadsAll(cs) ==> 0 <= h < currentId - 1
    ensures ParseCategoriesChildren(c, cs, currentId, nextId).0 == WriteAll(c, LayoutAll(cs, currentId, nextId), CategoryOf)
    decreases cs, 1
  {
    var n := cs[0];
    LayoutAllConsNode(cs, currentId, nextId);
    CategoriesChildrenConsNode(c, cs, currentId, nextId);
    var lay := Layout(n, currentId, nextId + 1);
    var next := nextId + Internal(n);
    var rest := LayoutAll(cs[1..], currentId, next);
    var q := WriteAll(c, lay, CategoryOf);
    ParseCategoriesChildrenFollowsLayout(q, cs[1..], currentId, next);
    WriteAllAppend(c, lay, rest, CategoryOf);
    assert ParseCategoriesChildren(c, cs, currentId, nextId).0 == ParseCategoriesChildren(q, cs[1..], currentId, next).0;
  }

  /** Some placement of the list lands on slot `i`. */
  predicate Occupied(pls: seq<Placement>, i: int)
  {
    exists k :: 0 <= k < |pls| && pls[k].slot == i
  }

  predicate DistinctSlots(pls: seq<Placement>)
  {
    forall i, j :: 0 <= i < j < |pls| ==> pls[i].slot != pls[j].slot
  }

  lemma DistinctSlotsAppend(x: seq<Placement>, y: seq<Placement>)
    requires DistinctSlots(x) && DistinctSlots(y)
    requires forall i, j :: 0 <= i < |x| && 0 <= j < |y| ==> x[i].slot != y[j].slot
    ensures DistinctSlots(x + y)
  {
    forall i, j | 0 <= i < j < |x + y|
      ensures (x + y)[i].slot != (x + y)[j].slot
    {
      if j < |x| {
      } else if i < |x| {
        assert (x + y)[j] == y[j - |x|];
      } else {
        assert (x + y)[i] == y[i - |x|] && (x + y)[j] == y[j - |x|];
      }
    }
  }

  /** A placement list of `size` entries on pairwise distinct slots, which are
      precisely the internal slots `lo .. hi-1` and the head indices `heads`. */
  ghost predicate Covers(lay: seq<Placement>, lo: int, hi: int, heads: seq<int>, size: nat)
  {
    && |lay| == size
    && DistinctSlots(lay)
    && (forall k :: 0 <= k < |lay| ==> (lo <= lay[k].slot < hi) || lay[k].slot in heads)
    && (forall i :: lo <= i < hi ==> Occupied(lay, i))
    && (forall h :: h in heads ==> Occupied(lay, h))
  }

  /** Two placement lists over adjacent internal ranges and disjoint words,
      all words below the ranges, concatenate to one. */
  lemma CoversAppend(x: seq<Placement>, y: seq<Placement>, lo: int, mid: int, hi: int,
                     hx: seq<int>, hy: seq<int>, sx: nat, sy: nat)
    requires lo <= mid <= hi
    requires Covers(x, lo, mid, hx, sx) && Covers(y, mid, hi, hy, sy)
    requires forall h :: h in hx + hy ==> h < lo
    requires Distinct(hx + hy)
    ensures Covers(x + y, lo, hi, hx + hy, sx + sy)
  {
    DistinctSplit(hx, hy);
    assert forall h :: h in hx ==> h in hx + hy;
    assert forall h :: h in hy ==> h in hx + hy;
    forall i, j | 0 <= i < |x| && 0 <= j < |y|
      ensures x[i].slot != y[j].slot
    {
      if x[i].slot in hx && y[j].slot in hy {
        assert x[i].slot !in hy;
      }
    }
    DistinctSlotsAppend(x, y);
    var z := x + y;
    forall k | 0 <= k < |z|
      ensures (lo <= z[k].slot < hi) || z[k].slot in hx + hy
    {
      if k < |x| {
        assert z[k] == x[k];
      } else {
        assert z[k] == y[k - |x|];
      }
    }
    forall i | lo <= i < hi
      ensures Occupied(z, i)
    {
      OccupiedAppend(x, y, i);
    }
    forall h | h in hx + hy
      ensures Occupied(z, h)
    {
      OccupiedAppend(x, y, h);
    }
  }

  /** A slot occupied in either part is occupied in the concatenation. */
  lemma OccupiedAppend(x: seq<Placement>, y: seq<Placement>, i: int)
    ensures Occupied(x, i) || Occupied(y, i) ==> Occupied(x + y, i)
  {
    if Occupied(x, i) {
      var k :| 0 <= k < |x| && x[k].slot == i;
      assert (x + y)[k] == x[k];
    } else if Occupied(y, i) {
      var k :| 0 <= k < |y| && y[k].slot == i;
      assert (x + y)[|x| + k] == y[k];
    }
  }

  /** The layout of a subtree places each of its nodes exactly once: as many
      placements as nodes, on pairwise distinct slots, which are precisely
      the subtree's internal slots and its words' head indices. */
  lemma {:induction false} LayoutShape(t: SyntaxTree, parentId: int, currentId: int)
    requires t.Node?
    requires forall h :: h in Heads(t) ==> h < currentId - 1
    requires Distinct(Heads(t))
    ensures Covers(Layout(t, parentId, currentId), currentId - 1, currentId - 1 + Internal(t), Heads(t), Size(t))
    decreases t, 1
  {
    assert Heads(t) == HeadsAll(t.children);
    var root := [Placement(currentId - 1, parentId, t.category)];
    assert root[0].slot == currentId - 1;
    assert Occupied(root, currentId - 1);
    assert Covers(root, currentId - 1, currentId, [], 1);
    LayoutAllShape(t.children, currentId, currentId);
    assert [] + Heads(t) == Heads(t);
    CoversAppend(root, LayoutAll(t.children, currentId, currentId), currentId - 1, currentId,
                 currentId - 1 + Internal(t), [], Heads(t), 1, SizeAll(t.children));
  }

  lemma {:induction false} LayoutAllShape(cs: seq<SyntaxTree>, currentId: int, nextId: int)
    requires currentId <= nextId
    requires forall h :: h in HeadsAll(cs) ==> h < currentId - 1
    requires Distinct(HeadsAll(cs))
    ensures Covers(LayoutAll(cs, currentId, nextId), nextId, nextId + InternalAll(cs), HeadsAll(cs), SizeAll(cs))
    decreases cs, 1
  {
    if |cs| == 0 {
    } else if cs[0].Leaf? {
      LayoutAllShapeLeaf(cs, currentId, nextId);
    } else {
      LayoutAllShapeNode(cs, currentId, nextId);
    }
  }

  /** The children's head indices split into the first child's and the
      rest's, disjoint, all below the enclosing number. */
  lemma HeadsAllCons(cs: seq<SyntaxTree>, currentId: int)
    requires |cs| > 0
    requires forall h :: h in HeadsAll(cs) ==> h < currentId - 1
    requires Distinct(HeadsAll(cs))
    ensures HeadsAll(cs) == Heads(cs[0]) + HeadsAll(cs[1..])
    ensures Distinct(Heads(cs[0])) && Distinct(HeadsAll(cs[1..]))
    ensures forall h :: h in Heads(cs[0]) ==> h < currentId - 1
    ensures forall h :: h in HeadsAll(cs[1..]) ==> h < currentId - 1
  {
    DistinctSplit(Heads(cs[0]), HeadsAll(cs[1..]));
    assert forall h :: h in Heads(cs[0]) ==> h in HeadsAll(cs);
    assert forall h :: h in HeadsAll(cs[1..]) ==> h in HeadsAll(cs);
  }

  lemma {:induction false} LayoutAllShapeLeaf(cs: seq<SyntaxTree>, currentId: int, nextId: int)
    requires |cs| > 0 && cs[0].Leaf?
    requires currentId <= nextId
    requires forall h :: h in HeadsAll(cs) ==> h < currentId - 1
    requires Distinct(HeadsAll(cs))
    ensures Covers(LayoutAll(cs, currentId, nextId), nextId, nextId + InternalAll(cs), HeadsAll(cs), SizeAll(cs))
    decreases cs, 0
  {
    var c := cs[0];
    HeadsAllCons(cs, currentId);
    LayoutAllShape(cs[1..], currentId, nextId);
    var first := [Placement(c.headIndex, currentId, c.category)];
    assert LayoutAll(cs, currentId, nextId) == first + LayoutAll(cs[1..], currentId, nextId);
    assert Heads(c) == [c.headIndex];
    assert first[0].slot == c.headIndex;
    assert Occupied(first, c.headIndex);
    assert Covers(first, nextId, nextId, Heads(c), 1);
    assert InternalAll(cs) == InternalAll(cs[1..]);
    assert SizeAll(cs) == 1 + SizeAll(cs[1..]);
    CoversAppend(first, LayoutAll(cs[1..], currentId, nextId), nextId, nextId, nextId + InternalAll(cs),
                 Heads(c), HeadsAll(cs[1..]), 1, SizeAll(cs[1..]));
  }

  /** One step of the children's layout when the first child is internal. */
  lemma LayoutAllConsNode(cs: seq<SyntaxTree>, currentId: int, nextId: int)
    requires |cs| > 0 && cs[0].Node?
    ensures LayoutAll(cs, currentId, nextId)
            == Layout(cs[0], currentId, nextId + 1) + LayoutAll(cs[1..], currentId, nextId + Internal(cs[0]))
    ensures InternalAll(cs) == Internal(cs[0]) + InternalAll(cs[1..])
    ensures SizeAll(cs) == Size(cs[0]) + SizeAll(cs[1..])
  {
  }

  lemma {:induction false} LayoutAllShapeNode(cs: seq<SyntaxTree>, currentId: int, nextId: int)
    requires |cs| > 0 && cs[0].Node?
    requires currentId <= nextId
    requires forall h :: h in HeadsAll(cs) ==> h < currentId - 1
    requires Distinct(HeadsAll(cs))
    ensures Covers(LayoutAll(cs, currentId, nextId), nextId, nextId + InternalAll(cs), HeadsAll(cs), SizeAll(cs))
    decreases cs, 0
  {
    var c := cs[0];
    HeadsAllCons(cs, currentId);
    var next := nextId + Internal(c);
    LayoutAllShape(cs[1..], currentId, next);
    LayoutShape(c, currentId, nextId + 1);
    var x := Layout(c, currentId, nextId + 1);
    var y := LayoutAll(cs[1..], currentId, next);
    LayoutAllConsNode(cs, currentId, nextId);
    assert forall h :: h in Heads(c) + HeadsAll(cs[1..]) ==> h < nextId by {
      assert Heads(c) + HeadsAll(cs[1..]) == HeadsAll(cs);
    }
    CoversAppend(x, y, nextId, next, nextId + InternalAll(cs),
                 Heads(c), HeadsAll(cs[1..]), Size(c), SizeAll(cs[1..]));
  }

  lemma {:induction false} WriteAllUntouched<T>(a: seq<T>, pls: seq<Placement>, f: Placement -> T, i: int)
    requires 0 <= i < |a|
    requires forall k :: 0 <= k < |pls| ==> pls[k].slot != i
    ensures WriteAll(a, pls, f)[i] == a[i]
    decreases |pls|
  {
    if |pls| > 0 {
      WriteAllUntouched(if 0 <= pls[0].slot < |a| then a[pls[0].slot := f(pls[0])] else a, pls[1..], f, i);
    }
  }

  /** With distinct slots, each placement's value survives the later writes. */
  lemma {:induction false} WriteAllAt<T>(a: seq<T>, pls: seq<Placement>, f: Placement -> T, k: nat)
    requires DistinctSlots(pls) && k < |pls| && 0 <= pls[k].slot < |a|
    ensures WriteAll(a, pls, f)[pls[k].slot] == f(pls[k])
    decreases |pls|
  {
    var a1 := if 0 <= pls[0].slot < |a| then a[pls[0].slot := f(pls[0])] else a;
    if k == 0 {
      WriteAllUntouched(a1, pls[1..], f, pls[0].slot);
    } else {
      WriteAllAt(a1, pls[1..], f, k - 1);
    }
  }

  /** Slot `i` holds the parent number and the category of one and the same
      placed node. */
  ghost predicate SameNodeAt(parents: seq<int>, categories: seq<Option<string>>, lay: seq<Placement>, i: int)
    requires 0 <= i < |parents| && i < |categories|
  {
    exists k :: 0 <= k < |lay| && lay[k].slot == i && parents[i] == lay[k].parent && categories[i] == Some(lay[k].category)
  }

  /** The two arrays of an internal root agree slot by slot: every slot holds
      the parent number and the category of one and the same node of the
      layout, and the layout places every node exactly once. */
  lemma CategoriesAlignWithParents(t: SyntaxTree)
    requires t.Node? && HeadsArePositions(t)
    ensures var parents := ConstTreeParents(t);
            var categories := ConstTreeCategories(t);
            var lay := Layout(t, 0, |Heads(t)| + 1);
            && |lay| == |parents| == |categories|
            && DistinctSlots(lay)
            && forall i :: 0 <= i < |parents| ==> SameNodeAt(parents, categories, lay, i)
  {
    var leaves := |Heads(t)|;
    var n := Size(t);
    var lay := Layout(t, 0, leaves + 1);
    LayoutOccupiesAll(t);
    SizeSplits(t);
    ParseParentsFollowsLayout(seq(n, _ => 0), t, 0, leaves + 1);
    ParseCategoriesFollowsLayout(seq(n, _ => None), t, 0, leaves + 1);
    var parents := ConstTreeParents(t);
    var categories := ConstTreeCategories(t);
    assert parents == WriteAll(seq(n, _ => 0), lay, ParentOf);
    assert categories == WriteAll(seq(n, _ => None), lay, CategoryOf);
    forall i | 0 <= i < n
      ensures SameNodeAt(parents, categories, lay, i)
    {
      SlotAligned(lay, n, i);
    }
  }

  /** The layout of a root whose words sit at the sentence positions fills
      every slot `0 .. Size(t)-1`, each once. */
  lemma LayoutOccupiesAll(t: SyntaxTree)
    requires t.Node? && HeadsArePositions(t)
    ensures var lay := Layout(t, 0, |Heads(t)| + 1);
            && |lay| == Size(t)
            && DistinctSlots(lay)
            && forall i :: 0 <= i < Size(t) ==> Occupied(lay, i)
  {
    var leaves := |Heads(t)|;
    SizeSplits(t);
    LayoutShape(t, 0, leaves + 1);
    var lay := Layout(t, 0, leaves + 1);
    forall i | 0 <= i < Size(t)
      ensures Occupied(lay, i)
    {
      if i < leaves {
        assert i in Heads(t);
      }
    }
  }

  /** In the arrays a layout writes, a slot the layout occupies holds the
      parent number and the category of the same placement. */
  lemma SlotAligned(lay: seq<Placement>, n: nat, i: int)
    requires DistinctSlots(lay)
    requires 0 <= i < n && Occupied(lay, i)
    ensures SameNodeAt(WriteAll(seq(n, _ => 0), lay, ParentOf), WriteAll(seq(n, _ => None), lay, CategoryOf), lay, i)
  {
    var k :| 0 <= k < |lay| && lay[k].slot == i;
    WriteAllAt(seq(n, _ => 0), lay, ParentOf, k);
    WriteAllAt(seq(n, _ => None), lay, CategoryOf, k);
  }

  /* ---------------------------------------------------------------------
     Writing the arrays: one line per sentence, entries separated by one
     space and terminated by a newline. An empty array has no last entry to
     write, which the writer reports as a failure (None). */

  /** The decimal renderings of `xs`, in order. */
  function ShowInts(xs: seq<int>): (r: seq<string>)
    ensures |r| == |xs|
    ensures forall i :: 0 <= i < |xs| ==> r[i] == IntToString(xs[i])
  {
    if |xs| == 0 then [] else [IntToString(xs[0])] + ShowInts(xs[1..])
  }

  /** The line `printParents` writes for one sentence. */
  function PrintParents(parents: seq<int>): (r: Option<string>)
    ensures r.None? <==> |parents| == 0
    ensures r.Some? ==> |r.value| > 0 && r.value[|r.value| - 1] == '\n'
  {
    if |parents| == 0 then None
    else Some(Join(ShowInts(parents), ' ') + "\n")
  }

  /** A null category is written as the word `null`. */
  function ShowCategory(c: Option<string>): string
  {
    match c
    case None => "null"
    case Some(s) => s
  }

  function ShowCategories(cs: seq<Option<string>>): (r: seq<string>)
    ensures |r| == |cs|
    ensures forall i :: 0 <= i < |cs| ==> r[i] == ShowCategory(cs[i])
  {
    if |cs| == 0 then [] else [ShowCategory(cs[0])] + ShowCategories(cs[1..])
  }

  /** The line `printCategories` writes for one sentence. */
  function PrintCategories(categories: seq<Option<string>>): (r: Option<string>)
    ensures r.None? <==> |categories| == 0
    ensures r.Some? ==> |r.value| > 0 && r.value[|r.value| - 1] == '\n'
  {
    if |categories| == 0 then None
    else Some(Join(ShowCategories(categories), ' ') + "\n")
  }

  /** The fields of a written line: the text before the final newline,
      split at every space. A line without a final newline is rejected. */
  function Fields(line: string): Option<seq<string>>
  {
    if |line| == 0 || line[|line| - 1] != '\n' then None
    else Some(SplitOn(line[..|line| - 1], ' '))
  }

  function ReadInts(fields: seq<string>): (r: Option<seq<int>>)
    ensures r.Some? ==> |r.value| == |fields|
  {
    if |fields| == 0 then Some([])
    else
      var x :- ParseInt(fields[0]);
      var rest :- ReadInts(fields[1..]);
      Some([x] + rest)
  }

  /** Reads back a line written by `PrintParents`. */
  function ReadParents(line: string): Option<seq<int>>
  {
    var fields :- Fields(line);
    ReadInts(fields)
  }

  function ReadCategory(field: string): Option<string>
  {
    if field == "null" then None else Some(field)
  }

  /** Reads back a line written by `PrintCategories`. */
  function ReadCategories(line: string): Option<seq<Option<string>>>
  {
    var fields :- Fields(line);
    Some(seq(|fields|, i requires 0 <= i < |fields| => ReadCategory(fields[i])))
  }

  lemma {:induction false} ReadShowInts(xs: seq<int>)
    ensures ReadInts(ShowInts(xs)) == Some(xs)
  {
    if |xs| > 0 {
      var s := ShowInts(xs);
      ParseIntToString(xs[0]);
      assert ParseInt(s[0]) == Some(xs[0]);
      assert s[1..] == ShowInts(xs[1..]);
      ReadShowInts(xs[1..]);
      assert ReadInts(s[1..]) == Some(xs[1..]);
      assert [xs[0]] + xs[1..] == xs;
    }
  }

  lemma FieldsOfLine(xs: seq<string>)
    requires |xs| >= 1
    requires forall i :: 0 <= i < |xs| ==> ' ' !in xs[i]
    ensures Fields(Join(xs, ' ') + "\n") == Some(xs)
  {
    var line := Join(xs, ' ') + "\n";
    assert line[..|line| - 1] == Join(xs, ' ');
    SplitOnJoin(xs, ' ');
  }

  /** Every parent array the writer accepts is read back unchanged. */
  lemma ParentsRoundTrip(parents: seq<int>)
    requires |parents| > 0
    ensures ReadParents(PrintParents(parents).value) == Some(parents)
  {
    var xs := ShowInts(parents);
    FieldsOfLine(xs);
    ReadShowInts(parents);
  }

  /** Category arrays are read back unchanged provided no category contains
      a space or is spelled `null`. */
  lemma CategoriesRoundTrip(categories: seq<Option<string>>)
    requires |categories| > 0
    requires forall i :: 0 <= i < |categories| && categories[i].Some? ==>
               ' ' !in categories[i].value && categories[i].value != "null"
    ensures ReadCategories(PrintCategories(categories).value) == Some(categories)
  {
    var xs := ShowCategories(categories);
    FieldsOfLine(xs);
    var back := seq(|xs|, i requires 0 <= i < |xs| => ReadCategory(xs[i]));
    assert back == categories by {
      forall i | 0 <= i < |xs| ensures back[i] == categories[i] {
        assert xs[i] == ShowCategory(categories[i]);
      }
    }
  }
}
