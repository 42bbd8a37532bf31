/** The B-tree engine of `btree.rs`: binary search, descent, pruned scan and full walk.

    A node is taken as its accessors present it: `keys[i]` and `vals[i]` are what
    `Node::key(i)` and `Node::value(i)` return, errors included. A node source is an
    arbitrary function, so the node graph may be cyclic. */
module BTree {
  import opened Bytes

  datatype Ordering = Less | Equal | Greater

  type Cmp = Bytes -> Result<Ordering>

  datatype Entry = Entry(key: Bytes, val: Option<Bytes>)

  datatype NodeView = NodeView(leaf: bool, keys: seq<Result<Bytes>>, vals: seq<Result<Option<Bytes>>>, block: Bytes)

  type Node = n: NodeView | |n.keys| == |n.vals| witness NodeView(true, [], [], [])

  type Source = nat -> Result<Node>

  /** A visitor: the state it captures, and whether to go on. */
  type Visitor<!S> = (S, Entry) -> Result<(S, bool)>

  datatype SearchPos = Found(index: nat) | Before(at: Option<nat>)

  const MAX_DEPTH := 16

  // ---------- search_node ----------

  function SearchRange(keys: seq<Result<Bytes>>, cmp: Cmp, lo: nat, hi: nat): Result<SearchPos>
    requires lo <= hi <= |keys|
    decreases hi - lo
  {
    if lo < hi then
      var mid := (lo + hi) / 2;
      var key :- keys[mid];
      var c :- cmp(key);
      match c
      case Less => SearchRange(keys, cmp, mid + 1, hi)
      case Greater => SearchRange(keys, cmp, lo, mid)
      case Equal => Ok(Found(mid))
    else
      Ok(Before(if lo == 0 then None else Some(lo - 1)))
  }

  method SearchNode(node: Node, cmp: Cmp) returns (r: Result<SearchPos>)
    ensures r == SearchRange(node.keys, cmp, 0, |node.keys|)
  {
    var n := |node.keys|;
    var lo, hi := 0, n;
    while lo < hi
      invariant 0 <= lo <= hi <= n
      invariant SearchRange(node.keys, cmp, lo, hi) == SearchRange(node.keys, cmp, 0, n)
    {
      var mid := (lo + hi) / 2;
      var key :- node.keys[mid];
      var c :- cmp(key);
      match c
      case Less => lo := mid + 1;
      case Greater => hi := mid;
      case Equal => return Ok(Found(mid));
    }
    return Ok(Before(if lo == 0 then None else Some(lo - 1)));
  }

  // ---------- descend_to_leaf ----------

  function ValueAt(node: Node, i: nat): Result<Option<Bytes>> {
    if i < |node.vals| then node.vals[i] else Err(Corrupt)
  }

  /** The child reference held by a non-leaf value. */
  function ChildRef(value: Result<Option<Bytes>>): Result<nat> {
    var val :- value;
    if val.None? || |val.value| < 8 then Err(Corrupt) else Ok(Field(val.value, 0, 8))
  }

  function Child(src: Source, node: Node, i: nat): Result<Node> {
    var ref :- ChildRef(ValueAt(node, i));
    src(ref)
  }

  function DescentIndex(p: SearchPos): nat {
    match p
    case Found(i) => i
    case Before(Some(i)) => i
    case Before(None) => 0
  }

  function Descend(src: Source, node: Node, cmp: Cmp, depth: nat): Result<Node>
    requires depth <= MAX_DEPTH
    decreases MAX_DEPTH - depth
  {
    if node.leaf then Ok(node)
    else if depth + 1 > MAX_DEPTH then Err(Corrupt)
    else
      var p :- SearchRange(node.keys, cmp, 0, |node.keys|);
      var child :- Child(src, node, DescentIndex(p));
      Descend(src, child, cmp, depth + 1)
  }

  /** Descent to the leaf that may hold the target, loading at most 16 nodes. */
  method DescendToLeaf(src: Source, root: Node, cmp: Cmp) returns (r: Result<Node>, ghost loads: nat)
    ensures r == Descend(src, root, cmp, 0)
    ensures loads <= MAX_DEPTH
  {
    var node := root;
    var depth := 0;
    loads := 0;
    while !node.leaf
      invariant depth <= MAX_DEPTH && loads == depth
      invariant Descend(src, node, cmp, depth) == Descend(src, root, cmp, 0)
      decreases MAX_DEPTH - depth
    {
      if depth + 1 > MAX_DEPTH {
        return Err(Corrupt), loads;
      }
      var p := SearchNode(node, cmp);
      if p.Err? {
        return Err(p.error), loads;
      }
      var ref := ChildRef(ValueAt(node, DescentIndex(p.value)));
      if ref.Err? {
        return Err(ref.error), loads;
      }
      var child := src(ref.value);
      loads := loads + 1;
      if child.Err? {
        return Err(child.error), loads;
      }
      node, depth := child.value, depth + 1;
    }
    return Ok(node), loads;
  }

  // ---------- what a traversal shows its visitor ----------

  /** The entries a traversal offers a visitor that never stops, and the error that ends it, if any. */
  datatype Trace = Trace(seen: seq<Entry>, end: Option<Error>)

  function Append(a: Trace, b: Trace): Trace {
    if a.end.Some? then a else Trace(a.seen + b.seen, b.end)
  }

  function Failed(e: Error): Trace {
    Trace([], Some(e))
  }

  /** Feed a trace to a visitor until it says stop, fails, or the trace ends. */
  function Run<S>(f: Visitor<S>, s: S, t: Trace): Result<(S, bool)>
    decreases |t.seen|
  {
    if |t.seen| == 0 then
      if t.end.Some? then Err(t.end.value) else Ok((s, true))
    else
      var (s', go) :- f(s, t.seen[0]);
      if go then Run(f, s', Trace(t.seen[1..], t.end)) else Ok((s', false))
  }

  lemma {:induction false} RunAppend<S>(f: Visitor<S>, s: S, a: Trace, b: Trace)
    ensures Run(f, s, Append(a, b)) ==
            (var r := Run(f, s, a);
             if r.Ok? && r.value.1 then Run(f, r.value.0, b) else r)
    decreases |a.seen|
  {
    if a.end.Some? {
      RunErr(f, s, a);
    } else if |a.seen| == 0 {
      assert Append(a, b) == b;
    } else {
      var r := f(s, a.seen[0]);
      if r.Ok? && r.value.1 {
        var rest := Trace(a.seen[1..], a.end);
        RunAppend(f, r.value.0, rest, b);
        assert (a.seen + b.seen)[1..] == a.seen[1..] + b.seen;
        assert Append(rest, b) == Trace(Append(a, b).seen[1..], Append(a, b).end);
      }
    }
  }

  lemma {:induction false} RunErr<S>(f: Visitor<S>, s: S, a: Trace)
    requires a.end.Some?
    ensures var r := Run(f, s, a); !(r.Ok? && r.value.1)
    decreases |a.seen|
  {
    if |a.seen| > 0 {
      var r := f(s, a.seen[0]);
      if r.Ok? {
        RunErr(f, r.value.0, Trace(a.seen[1..], a.end));
      }
    }
  }

  // ---------- scan_rec and walk_rec as traces ----------

  function LowerBound(keys: seq<Result<Bytes>>, cmp: Cmp, lo: nat, hi: nat): (r: Result<nat>)
    requires lo <= hi <= |keys|
    ensures r.Ok? ==> lo <= r.value <= hi
    decreases hi - lo
  {
    if lo < hi then
      var mid := (lo + hi) / 2;
      var key :- keys[mid];
      var c :- cmp(key);
      if c == Less then LowerBound(keys, cmp, mid + 1, hi) else LowerBound(keys, cmp, lo, mid)
    else
      Ok(lo)
  }

  function LeafTrace(node: Node, i: nat): Trace
    requires i <= |node.keys|
    decreases |node.keys| - i
  {
    if i == |node.keys| then Trace([], None)
    else if node.keys[i].Err? then Failed(node.keys[i].error)
    else if node.vals[i].Err? then Failed(node.vals[i].error)
    else Append(Trace([Entry(node.keys[i].value, node.vals[i].value)], None), LeafTrace(node, i + 1))
  }

  function ScanTrace(src: Source, node: Node, cmp: Cmp, depth: nat): Trace
    requires depth <= MAX_DEPTH + 1
    decreases MAX_DEPTH + 1 - depth, |node.keys| + 1
  {
    if depth > MAX_DEPTH then Failed(Corrupt)
    else
      var lb := LowerBound(node.keys, cmp, 0, |node.keys|);
      if lb.Err? then Failed(lb.error)
      else if node.leaf then LeafTrace(node, lb.value)
      else ScanKids(src, node, cmp, depth, if lb.value == 0 then 0 else lb.value - 1)
  }

  function ScanKids(src: Source, node: Node, cmp: Cmp, depth: nat, i: nat): Trace
    requires depth <= MAX_DEPTH && i <= |node.keys|
    decreases MAX_DEPTH + 1 - depth, |node.keys| - i
  {
    if i == |node.keys| then Trace([], None)
    else
      var child := Child(src, node, i);
      if child.Err? then Failed(child.error)
      else Append(ScanTrace(src, child.value, cmp, depth + 1), ScanKids(src, node, cmp, depth, i + 1))
  }

  function WalkTrace(src: Source, node: Node, depth: nat): Trace
    requires depth <= MAX_DEPTH + 1
    decreases MAX_DEPTH + 1 - depth, |node.keys| + 1
  {
    if depth > MAX_DEPTH then Failed(Corrupt)
    else if node.leaf then LeafTrace(node, 0)
    else WalkKids(src, node, depth, 0)
  }

  function WalkKids(src: Source, node: Node, depth: nat, i: nat): Trace
    requires depth <= MAX_DEPTH && i <= |node.keys|
    decreases MAX_DEPTH + 1 - depth, |node.keys| - i
  {
    if i == |node.keys| then Trace([], None)
    else
      var child := Child(src, node, i);
      if child.Err? then Failed(child.error)
      else Append(WalkTrace(src, child.value, depth + 1), WalkKids(src, node, depth, i + 1))
  }

  // ---------- how many nodes a traversal loads ----------

  /** The nodes a walk loads below `node` if its visitor never stops. */
  ghost function WalkLoads(src: Source, node: Node, depth: nat): nat
    requires depth <= MAX_DEPTH + 1
    decreases MAX_DEPTH + 1 - depth, |node.keys| + 1
  {
    if depth > MAX_DEPTH || node.leaf then 0 else KidLoads(src, node, depth, 0)
  }

  /** Those of children `i..`, up to the first error. */
  ghost function KidLoads(src: Source, node: Node, depth: nat, i: nat): nat
    requires depth <= MAX_DEPTH && i <= |node.keys|
    decreases MAX_DEPTH + 1 - depth, |node.keys| - i
  {
    if i == |node.keys| || ChildRef(ValueAt(node, i)).Err? then 0
    else if Child(src, node, i).Err? then 1
    else
      1 + WalkLoads(src, Child(src, node, i).value, depth + 1) +
      if WalkTrace(src, Child(src, node, i).value, depth + 1).end.Some? then 0 else KidLoads(src, node, depth, i + 1)
  }

  /** The nodes a scan loads if its visitor never stops. */
  ghost function ScanLoads(src: Source, node: Node, cmp: Cmp, depth: nat): nat
    requires depth <= MAX_DEPTH + 1
    decreases MAX_DEPTH + 1 - depth, |node.keys| + 1
  {
    if depth > MAX_DEPTH || node.leaf then 0
    else
      var lb := LowerBound(node.keys, cmp, 0, |node.keys|);
      if lb.Err? then 0 else ScanKidLoads(src, node, cmp, depth, if lb.value == 0 then 0 else lb.value - 1)
  }

  ghost function ScanKidLoads(src: Source, node: Node, cmp: Cmp, depth: nat, i: nat): nat
    requires depth <= MAX_DEPTH && i <= |node.keys|
    decreases MAX_DEPTH + 1 - depth, |node.keys| - i
  {
    if i == |node.keys| || ChildRef(ValueAt(node, i)).Err? then 0
    else if Child(src, node, i).Err? then 1
    else
      1 + ScanLoads(src, Child(src, node, i).value, cmp, depth + 1) +
      if ScanTrace(src, Child(src, node, i).value, cmp, depth + 1).end.Some? then 0
      else ScanKidLoads(src, node, cmp, depth, i + 1)
  }

  // ---------- scan_from and walk_leaves ----------

  method FeedLeaf<S>(node: Node, f: Visitor<S>, s0: S, from: nat) returns (r: Result<(S, bool)>)
    requires from <= |node.keys|
    ensures r == Run(f, s0, LeafTrace(node, from))
  {
    var s := s0;
    for i := from to |node.keys|
      invariant Run(f, s0, LeafTrace(node, from)) == Run(f, s, LeafTrace(node, i))
    {
      var key :- node.keys[i];
      var val :- node.vals[i];
      ghost var one := Trace([Entry(key, val)], None);
      RunAppend(f, s, one, LeafTrace(node, i + 1));
      var out := f(s, Entry(key, val));
      assert Run(f, s, one) == if out.Ok? && out.value.1 then Ok((out.value.0, true)) else out;
      if out.Err? || !out.value.1 {
        return out;
      }
      s := out.value.0;
    }
    return Ok((s, true));
  }

  method ScanRec<S>(src: Source, node: Node, cmp: Cmp, f: Visitor<S>, s0: S, depth: nat)
    returns (r: Result<(S, bool)>, ghost loads: nat)
    requires depth <= MAX_DEPTH + 1
    ensures r == Run(f, s0, ScanTrace(src, node, cmp, depth))
    ensures loads <= ScanLoads(src, node, cmp, depth)
    ensures r.Ok? && r.value.1 ==> loads == ScanLoads(src, node, cmp, depth)
    decreases MAX_DEPTH + 1 - depth, 1
  {
    loads := 0;
    if depth > MAX_DEPTH {
      return Err(Corrupt), 0;
    }
    var lb := FindLowerBound(node, cmp);
    if lb.Err? {
      return Err(lb.error), 0;
    }
    if node.leaf {
      r := FeedLeaf(node, f, s0, lb.value);
      return;
    }
    // The child before the lower bound may still hold in-range keys.
    var start := if lb.value == 0 then 0 else lb.value - 1;
    r, loads := ScanChildren(src, node, cmp, f, s0, depth, start);
  }

  method FindLowerBound(node: Node, cmp: Cmp) returns (r: Result<nat>)
    ensures r == LowerBound(node.keys, cmp, 0, |node.keys|)
  {
    var n := |node.keys|;
    var lo, hi := 0, n;
    while lo < hi
      invariant 0 <= lo <= hi <= n
      invariant LowerBound(node.keys, cmp, lo, hi) == LowerBound(node.keys, cmp, 0, n)
    {
      var mid := (lo + hi) / 2;
      var key :- node.keys[mid];
      var c :- cmp(key);
      if c == Less {
        lo := mid + 1;
      } else {
        hi := mid;
      }
    }
    return Ok(lo);
  }

  method ScanChildren<S>(src: Source, node: Node, cmp: Cmp, f: Visitor<S>, s0: S, depth: nat, start: nat)
    returns (r: Result<(S, bool)>, ghost loads: nat)
    requires depth <= MAX_DEPTH && start <= |node.keys|
    ensures r == Run(f, s0, ScanKids(src, node, cmp, depth, start))
    ensures loads <= ScanKidLoads(src, node, cmp, depth, start)
    ensures r.Ok? && r.value.1 ==> loads == ScanKidLoads(src, node, cmp, depth, start)
    decreases MAX_DEPTH + 1 - depth, 0
  {
    hide ScanTrace, ScanLoads, ScanKids, ScanKidLoads, Run, ChildRef;
    var s := s0;
    loads := 0;
    for i := start to |node.keys|
      invariant Run(f, s0, ScanKids(src, node, cmp, depth, start)) == Run(f, s, ScanKids(src, node, cmp, depth, i))
      invariant ScanKidLoads(src, node, cmp, depth, start) == loads + ScanKidLoads(src, node, cmp, depth, i)
    {
      ScanStep(src, node, cmp, f, s, depth, i);
      var ref := ChildRef(ValueAt(node, i));
      if ref.Err? {
        return Err(ref.error), loads;
      }
      var child := src(ref.value);
      loads := loads + 1;
      if child.Err? {
        return Err(child.error), loads;
      }
      var out, more := ScanRec(src, child.value, cmp, f, s, depth + 1);
      loads := loads + more;
      if out.Err? || !out.value.1 {
        return out, loads;
      }
      RunEnds(f, s, ScanTrace(src, child.value, cmp, depth + 1));
      s := out.value.0;
    }
    ScanDone(src, node, cmp, f, s, depth);
    return Ok((s, true)), loads;
  }

  /** What child `i` adds to a scan. */
  lemma ScanStep<S>(src: Source, node: Node, cmp: Cmp, f: Visitor<S>, s: S, depth: nat, i: nat)
    requires depth <= MAX_DEPTH && i < |node.keys|
    ensures var ref := ChildRef(ValueAt(node, i));
            var all, loads := Run(f, s, ScanKids(src, node, cmp, depth, i)), ScanKidLoads(src, node, cmp, depth, i);
            if ref.Err? then all == Err(ref.error) && loads == 0
            else if src(ref.value).Err? then all == Err(src(ref.value).error) && loads == 1
            else
              var below := ScanTrace(src, src(ref.value).value, cmp, depth + 1);
              var r := Run(f, s, below);
              && all == (if r.Ok? && r.value.1 then Run(f, r.value.0, ScanKids(src, node, cmp, depth, i + 1)) else r)
              && loads == 1 + ScanLoads(src, src(ref.value).value, cmp, depth + 1) +
                          if below.end.Some? then 0 else ScanKidLoads(src, node, cmp, depth, i + 1)
  {
    hide ChildRef, LowerBound, LeafTrace;
    var child := Child(src, node, i);
    if child.Ok? {
      RunAppend(f, s, ScanTrace(src, child.value, cmp, depth + 1), ScanKids(src, node, cmp, depth, i + 1));
    }
  }

  lemma ScanDone<S>(src: Source, node: Node, cmp: Cmp, f: Visitor<S>, s: S, depth: nat)
    requires depth <= MAX_DEPTH
    ensures Run(f, s, ScanKids(src, node, cmp, depth, |node.keys|)) == Ok((s, true))
    ensures ScanKidLoads(src, node, cmp, depth, |node.keys|) == 0
  {
  }

  method ScanFrom<S>(src: Source, root: Node, cmp: Cmp, f: Visitor<S>, s: S)
    returns (r: Result<(S, bool)>, ghost loads: nat)
    ensures r == Run(f, s, ScanTrace(src, root, cmp, 0))
    ensures loads <= ScanLoads(src, root, cmp, 0)
    ensures r.Ok? && r.value.1 ==> loads == ScanLoads(src, root, cmp, 0)
  {
    r, loads := ScanRec(src, root, cmp, f, s, 0);
  }

  /** `loads` counts the calls of `load_node`: no more than a walk that is never stopped makes, and exactly
      as many if it is not stopped. */
  method WalkRec<S>(src: Source, node: Node, f: Visitor<S>, s0: S, depth: nat)
    returns (r: Result<(S, bool)>, ghost loads: nat)
    requires depth <= MAX_DEPTH + 1
    ensures r == Run(f, s0, WalkTrace(src, node, depth))
    ensures loads <= WalkLoads(src, node, depth)
    ensures r.Ok? && r.value.1 ==> loads == WalkLoads(src, node, depth)
    decreases MAX_DEPTH + 1 - depth
  {
    loads := 0;
    if depth > MAX_DEPTH {
      return Err(Corrupt), 0;
    }
    if node.leaf {
      r := FeedLeaf(node, f, s0, 0);
      return;
    }
    var s := s0;
    for i := 0 to |node.keys|
      invariant Run(f, s0, WalkKids(src, node, depth, 0)) == Run(f, s, WalkKids(src, node, depth, i))
      invariant WalkLoads(src, node, depth) == loads + KidLoads(src, node, depth, i)
    {
      var ref := ChildRef(ValueAt(node, i));
      if ref.Err? {
        return Err(ref.error), loads;
      }
      var child := src(ref.value);
      loads := loads + 1;
      if child.Err? {
        return Err(child.error), loads;
      }
      ghost var below := WalkTrace(src, child.value, depth + 1);
      RunAppend(f, s, below, WalkKids(src, node, depth, i + 1));
      var out, more := WalkRec(src, child.value, f, s, depth + 1);
      loads := loads + more;
      if out.Err? || !out.value.1 {
        return out, loads;
      }
      RunEnds(f, s, below);
      s := out.value.0;
    }
    return Ok((s, true)), loads;
  }

  /** A trace run to its end has no error at its end. */
  lemma {:induction false} RunEnds<S>(f: Visitor<S>, s: S, t: Trace)
    requires Run(f, s, t).Ok? && Run(f, s, t).value.1
    ensures t.end.None?
  {
    if t.end.Some? {
      RunErr(f, s, t);
    }
  }

  method WalkLeaves<S>(src: Source, root: Node, f: Visitor<S>, s: S) returns (r: Result<(S, bool)>, ghost loads: nat)
    ensures r == Run(f, s, WalkTrace(src, root, 0))
    ensures loads <= WalkLoads(src, root, 0)
    ensures r.Ok? && r.value.1 ==> loads == WalkLoads(src, root, 0)
  {
    r, loads := WalkRec(src, root, f, s, 0);
  }
}
