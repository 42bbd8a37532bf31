/** How much work a walk or a scan can be made to do: bounded on every store, and by how much. */
module WorkBound {
  import opened Bytes
  import opened BTree
  import opened NodeCodec

  /** n + n^2 + ... + n^k. */
  function Powers(n: nat, k: nat): nat {
    if k == 0 then 0 else n * (1 + Powers(n, k - 1))
  }

  /** Every node the store loads, and this one, has at most `n` entries. */
  ghost predicate Narrow(src: Source, node: Node, n: nat) {
    |node.keys| <= n && forall ref :: src(ref).Ok? ==> |src(ref).value.keys| <= n
  }

  /** A parsed node has at most 4096 entries. */
  lemma ParsedIsNarrow(block: Bytes, keySize: nat, valSize: nat)
    requires ParseNode(block).Ok?
    ensures |Present(ParseNode(block).value, keySize, valSize).keys| <= 4096
  {
    hide Field;
  }

  ghost function OneIf(b: bool): nat {
    if b then 1 else 0
  }

  lemma MoreKids(a: nat, b: nat, c: nat)
    requires a <= b
    ensures a * c <= b * c
  {
    MulAtLeast(c, b - a);
    assert b * c - a * c == c * (b - a);
  }

  lemma OneMoreKid(rest: nat, c: nat)
    ensures (rest + 1) * c == rest * c + c
  {
  }

  ghost predicate ChildNarrow(src: Source, node: Node, n: nat, i: nat) {
    Child(src, node, i).Ok? ==> Narrow(src, Child(src, node, i).value, n)
  }

  lemma KidIsNarrow(src: Source, node: Node, n: nat, i: nat)
    requires Narrow(src, node, n)
    ensures ChildNarrow(src, node, n, i)
  {
    hide Field;
  }

  /** A walk of nodes of at most `n` entries loads at most n + n^2 + ... nodes, a power for each level still
      allowed, and one more if it ends in an error. */
  lemma {:induction false} WalkIsBounded(src: Source, node: Node, n: nat, depth: nat)
    requires depth <= MAX_DEPTH && Narrow(src, node, n)
    ensures WalkLoads(src, node, depth) <= Powers(n, MAX_DEPTH - depth) + OneIf(WalkTrace(src, node, depth).end.Some?)
    decreases MAX_DEPTH - depth, |node.keys| + 1
  {
    hide Powers, Child, ChildRef;
    if depth == MAX_DEPTH {
      LastLevelWalk(src, node);
    } else if !node.leaf {
      var c := 1 + Powers(n, MAX_DEPTH - depth - 1);
      WalkKidsBounded(src, node, n, depth, 0, c);
      MoreKids(|node.keys|, n, c);
      PowersStep(n, MAX_DEPTH - depth);
    }
  }

  lemma PowersStep(n: nat, k: nat)
    requires k > 0
    ensures Powers(n, k) == n * (1 + Powers(n, k - 1))
  {
  }

  /** On the last level allowed a node that is not a leaf ends the walk at its first child. */
  lemma LastLevelWalk(src: Source, node: Node)
    ensures WalkLoads(src, node, MAX_DEPTH) <= OneIf(WalkTrace(src, node, MAX_DEPTH).end.Some?)
  {
    hide Child, ChildRef;
    if !node.leaf && |node.keys| > 0 {
      var c := Child(src, node, 0);
      ChildNeedsRef(src, node, 0);
      if c.Ok? {
        assert WalkTrace(src, c.value, MAX_DEPTH + 1).end.Some?;
        assert KidLoads(src, node, MAX_DEPTH, 0) <= 1;
      }
      assert WalkKids(src, node, MAX_DEPTH, 0).end.Some?;
    }
  }

  lemma ChildNeedsRef(src: Source, node: Node, i: nat)
    ensures ChildRef(ValueAt(node, i)).Err? ==> Child(src, node, i).Err?
  {
    hide ChildRef;
  }

  lemma {:induction false} WalkKidsBounded(src: Source, node: Node, n: nat, depth: nat, i: nat, c: nat)
    requires depth < MAX_DEPTH && Narrow(src, node, n) && i <= |node.keys| && c == 1 + Powers(n, MAX_DEPTH - depth - 1)
    ensures KidLoads(src, node, depth, i) <=
            (|node.keys| - i) * c + OneIf(WalkKids(src, node, depth, i).end.Some?)
    decreases MAX_DEPTH - depth, |node.keys| - i
  {
    hide Powers, Child, ChildRef, Narrow, LowerBound;
    if i < |node.keys| {
      OneMoreKid(|node.keys| - i - 1, c);
      ChildNeedsRef(src, node, i);
      KidIsNarrow(src, node, n, i);
      var child := Child(src, node, i);
      if child.Ok? {
        WalkIsBounded(src, child.value, n, depth + 1);
        WalkKidsBounded(src, node, n, depth, i + 1, c);
      }
    }
  }

  /** The same of a scan. */
  lemma {:induction false} ScanIsBounded(src: Source, node: Node, cmp: Cmp, n: nat, depth: nat)
    requires depth <= MAX_DEPTH && Narrow(src, node, n)
    ensures ScanLoads(src, node, cmp, depth) <= Powers(n, MAX_DEPTH - depth) + OneIf(ScanTrace(src, node, cmp, depth).end.Some?)
    decreases MAX_DEPTH - depth, |node.keys| + 1
  {
    hide Powers, Child, ChildRef, LowerBound;
    var lb := LowerBound(node.keys, cmp, 0, |node.keys|);
    if !node.leaf && lb.Ok? {
      BoundInRange(node, cmp);
      var start := if lb.value == 0 then 0 else lb.value - 1;
      if depth == MAX_DEPTH {
        LastLevelScan(src, node, cmp, start);
      } else {
        var c := 1 + Powers(n, MAX_DEPTH - depth - 1);
        ScanKidsBounded(src, node, cmp, n, depth, start, c);
        MoreKids(|node.keys| - start, n, c);
        PowersStep(n, MAX_DEPTH - depth);
      }
    }
  }

  lemma BoundInRange(node: Node, cmp: Cmp)
    requires LowerBound(node.keys, cmp, 0, |node.keys|).Ok?
    ensures LowerBound(node.keys, cmp, 0, |node.keys|).value <= |node.keys|
  {
  }

  lemma LastLevelScan(src: Source, node: Node, cmp: Cmp, i: nat)
    requires i <= |node.keys|
    ensures ScanKidLoads(src, node, cmp, MAX_DEPTH, i) <= OneIf(ScanKids(src, node, cmp, MAX_DEPTH, i).end.Some?)
  {
    hide Child, ChildRef;
    if i < |node.keys| {
      ChildNeedsRef(src, node, i);
      var c := Child(src, node, i);
      if c.Ok? {
        assert ScanTrace(src, c.value, cmp, MAX_DEPTH + 1).end.Some?;
      }
    }
  }

  lemma {:induction false} ScanKidsBounded(src: Source, node: Node, cmp: Cmp, n: nat, depth: nat, i: nat, c: nat)
    requires depth < MAX_DEPTH && Narrow(src, node, n) && i <= |node.keys| && c == 1 + Powers(n, MAX_DEPTH - depth - 1)
    ensures ScanKidLoads(src, node, cmp, depth, i) <=
            (|node.keys| - i) * c + OneIf(ScanKids(src, node, cmp, depth, i).end.Some?)
    decreases MAX_DEPTH - depth, |node.keys| - i
  {
    hide Powers, Child, ChildRef, Narrow, LowerBound;
    if i < |node.keys| {
      OneMoreKid(|node.keys| - i - 1, c);
      ChildNeedsRef(src, node, i);
      KidIsNarrow(src, node, n, i);
      var child := Child(src, node, i);
      if child.Ok? {
        ScanIsBounded(src, child.value, cmp, n, depth + 1);
        ScanKidsBounded(src, node, cmp, n, depth, i + 1, c);
      }
    }
  }

  // ---------- a store that reaches the bound ----------

  /** Node `k` of a ladder: each of its `n` entries refers to node `k + 1`; node 16 is an empty leaf. */
  function Rung(n: nat, k: nat): Node {
    var m := if k >= MAX_DEPTH then 0 else n;
    NodeView(k >= MAX_DEPTH, seq(m, _ => Ok([])), seq(m, _ => Ok(Some(LE(k + 1, 8)))), [])
  }

  function Ladder(n: nat): Source {
    (ref: nat) => if ref <= MAX_DEPTH then Ok(Rung(n, ref)) else Err(Io)
  }

  lemma NextRung(n: nat, k: nat, i: nat)
    requires k < MAX_DEPTH && i < n
    ensures Child(Ladder(n), Rung(n, k), i) == Ok(Rung(n, k + 1)) && ChildRef(ValueAt(Rung(n, k), i)) == Ok(k + 1)
  {
    hide Field, LE;
    assert LE(k + 1, 8) == [] + LE(k + 1, 8) + [];
    Field8At([], k + 1, []);
  }

  /** Seventeen nodes, of which all but the last refer `n` times to the next, make a walk load
      n + n^2 + ... + n^16 nodes without error, and show its visitor nothing. */
  lemma {:induction false} LadderIsClimbed(n: nat, k: nat)
    requires k <= MAX_DEPTH
    ensures WalkTrace(Ladder(n), Rung(n, k), k) == Trace([], None)
    ensures WalkLoads(Ladder(n), Rung(n, k), k) == Powers(n, MAX_DEPTH - k)
    decreases MAX_DEPTH - k, n + 1
  {
    hide Powers, Ladder;
    if k < MAX_DEPTH {
      RungsClimbed(n, k, 0);
      PowersStep(n, MAX_DEPTH - k);
    } else {
      assert LeafTrace(Rung(n, k), 0) == Trace([], None);
      NoPowers(n);
    }
  }

  lemma NoPowers(n: nat)
    ensures Powers(n, 0) == 0
  {
  }

  lemma {:induction false} RungsClimbed(n: nat, k: nat, i: nat)
    requires k < MAX_DEPTH && i <= n
    ensures WalkKids(Ladder(n), Rung(n, k), k, i) == Trace([], None)
    ensures KidLoads(Ladder(n), Rung(n, k), k, i) == (n - i) * (1 + Powers(n, MAX_DEPTH - k - 1))
    decreases MAX_DEPTH - k, n - i
  {
    hide Powers, Ladder, Child, ChildRef;
    if i < n {
      NextRung(n, k, i);
      LadderIsClimbed(n, k + 1);
      RungsClimbed(n, k, i + 1);
      OneMoreKid(n - i - 1, 1 + Powers(n, MAX_DEPTH - k - 1));
    }
  }
}
