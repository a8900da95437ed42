/**
  The flattener: `walk` turns a parsed table tree into a sequence of
  variables, one per string, integer, float or boolean leaf, each keyed by
  its root-to-leaf path.

  `Walk` is the loop of the Rust `walk` over an explicit stack of (prefix, table)
  frames. `FlattenEntries` is a recursive statement of the same output
  order: a table's own scalar entries in entry order, then its sub-tables,
  the last-pushed (greatest key) first, each expanded depth-first.
  `LeafAt` and `CountScalars` describe the leaves of the tree without
  reference to any traversal order.
 */
module Flattener {
  import opened Wrappers
  import opened Toml
  import opened Display

  type Path = seq<string>

  /** One flattened leaf: the key path from the root, and the value found there. */
  datatype Var = Var(key: Path, value: Scalar)

  /** A unit of pending work on the stack: a table and the path that leads to it. */
  datatype Frame = Frame(prefix: Path, entries: seq<Entry>)

  function FrameSize(f: Frame): nat
  {
    1 + EntriesSize(f.entries)
  }

  /** The termination measure of the traversal: the nodes still to be visited. */
  function FramesSize(fs: seq<Frame>): nat
  {
    if fs == [] then 0 else FrameSize(fs[0]) + FramesSize(fs[1..])
  }

  /** The variable a scalar entry of a table at `prefix` produces. */
  function EntryVar(prefix: Path, e: Entry): Var
    requires AsScalar(e.1).Some?
  {
    Var(prefix + [e.0], AsScalar(e.1).value)
  }

  /** The frame a table entry of a table at `prefix` pushes. */
  function EntryFrame(prefix: Path, e: Entry): Frame
    requires e.1.Table?
  {
    Frame(prefix + [e.0], e.1.entries)
  }

  /** The variables a table's own scalar entries produce, in entry order. */
  function Leaves(prefix: Path, es: seq<Entry>): (r: seq<Var>)
    ensures |r| <= |es|
  {
    if es == [] then []
    else
      var rest := Leaves(prefix, es[1..]);
      match AsScalar(es[0].1)
      case Some(s) => [EntryVar(prefix, es[0])] + rest
      case None => rest
  }

  /** The frames a table's sub-table entries push, in entry order. */
  function SubFrames(prefix: Path, es: seq<Entry>): (r: seq<Frame>)
    ensures |r| <= |es|
    ensures FramesSize(r) <= EntriesSize(es)
  {
    if es == [] then []
    else
      var rest := SubFrames(prefix, es[1..]);
      EntriesSizeCons(es);
      if es[0].1.Table? then
        var r := [EntryFrame(prefix, es[0])] + rest;
        assert r[1..] == rest;
        r
      else rest
  }

  /** A table's own variables are exactly those of its scalar entries. */
  lemma {:induction false} LeavesMembership(prefix: Path, es: seq<Entry>)
    ensures forall v :: v in Leaves(prefix, es) <==>
      exists i :: 0 <= i < |es| && AsScalar(es[i].1).Some? && v == EntryVar(prefix, es[i])
  {
    if es != [] {
      LeavesMembership(prefix, es[1..]);
      assert forall i :: 1 <= i < |es| ==> es[i] == es[1..][i - 1];
    }
  }

  /** A table pushes a frame for exactly each of its sub-table entries. */
  lemma {:induction false} SubFramesMembership(prefix: Path, es: seq<Entry>)
    ensures forall f :: f in SubFrames(prefix, es) <==>
      exists i :: 0 <= i < |es| && es[i].1.Table? && f == EntryFrame(prefix, es[i])
  {
    if es != [] {
      SubFramesMembership(prefix, es[1..]);
      assert forall i :: 1 <= i < |es| ==> es[i] == es[1..][i - 1];
    }
  }

  /**
    The variables a table at `prefix` yields: its own scalar entries first,
    then everything its sub-tables yield, as a stack of their frames drains.
   */
  function FlattenEntries(prefix: Path, es: seq<Entry>): seq<Var>
    decreases EntriesSize(es), 1
  {
    Leaves(prefix, es) + DrainStack(SubFrames(prefix, es))
  }

  /** The variables a stack of frames yields, the top (last) frame first. */
  function DrainStack(fs: seq<Frame>): seq<Var>
    decreases FramesSize(fs), 0
  {
    if fs == [] then [] else DrainStack(fs[1..]) + FlattenEntries(fs[0].prefix, fs[0].entries)
  }

  /** The order and content of `walk` on a whole document. */
  function Flatten(config: seq<Entry>): seq<Var>
  {
    FlattenEntries([], config)
  }

  /**
    `path` leads from `v` to a string, integer, float or boolean leaf whose
    value is `s`: each segment names an entry of the table reached so far.
   */
  predicate LeafAt(v: Value, path: Path, s: Scalar)
    decreases |path|
  {
    if path == [] then AsScalar(v) == Some(s)
    else
      v.Table? &&
      exists i :: 0 <= i < |v.entries| && v.entries[i].0 == path[0] && LeafAt(v.entries[i].1, path[1..], s)
  }

  /** Number of scalar leaves in a value. */
  function CountScalars(v: Value): nat
    decreases Size(v), 0
  {
    match v
    case Table(es) => CountEntries(es)
    case _ => if AsScalar(v).Some? then 1 else 0
  }

  function CountEntries(es: seq<Entry>): nat
    decreases EntriesSize(es), 1
  {
    if es == [] then 0
    else
      EntriesSizeCons(es);
      CountScalars(es[0].1) + CountEntries(es[1..])
  }

  function FramesCount(fs: seq<Frame>): nat
  {
    if fs == [] then 0 else CountEntries(fs[0].entries) + FramesCount(fs[1..])
  }

  /**
    The Rust `walk`: pop a frame, visit its entries, and repeat until
    the stack is empty.
   */
  method Walk(config: seq<Entry>) returns (vars: seq<Var>)
    ensures vars == Flatten(config)
    ensures |vars| == CountEntries(config)
    ensures forall v :: v in vars <==> LeafAt(Table(config), v.key, v.value)
  {
    var stack: seq<Frame> := [Frame([], config)];
    vars := [];
    while stack != []
      invariant vars + DrainStack(stack) == Flatten(config)
      decreases FramesSize(stack)
    {
      var top := stack[|stack| - 1];
      var rest := stack[..|stack| - 1];
      assert stack == rest + [top];
      ghost var before := vars;
      vars, stack := VisitEntries(top, vars, rest);
      WalkStep(config, before, rest, top, vars, stack);
    }
    FlattenLeaves(config);
  }

  /**
    The body of `walk`'s loop for one popped frame: visit its entries in
    order, append a variable for every string, integer, float or boolean,
    push a frame for every sub-table, and skip every other kind.
   */
  method VisitEntries(top: Frame, vars0: seq<Var>, stack0: seq<Frame>) returns (vars: seq<Var>, stack: seq<Frame>)
    ensures vars == vars0 + Leaves(top.prefix, top.entries)
    ensures stack == stack0 + SubFrames(top.prefix, top.entries)
  {
    ghost var p, es := top.prefix, top.entries;
    vars, stack := vars0, stack0;
    var i := 0;
    assert es[0..] == es;
    while i < |top.entries|
      invariant 0 <= i <= |es|
      invariant vars + Leaves(p, es[i..]) == vars0 + Leaves(p, es)
      invariant stack + SubFrames(p, es[i..]) == stack0 + SubFrames(p, es)
    {
      ghost var (vs, st) := (vars, stack);
      vars, stack := VisitEntry(top.prefix, top.entries[i], vars, stack);
      LeavesStep(p, es, i, vars0, vs, vars);
      SubFramesStep(p, es, i, stack0, st, stack);
      i := i + 1;
    }
    assert es[|es|..] == [];
  }

  /** The variable an entry contributes: one for a scalar, none otherwise. */
  function VarOf(prefix: Path, e: Entry): seq<Var>
  {
    if AsScalar(e.1).Some? then [EntryVar(prefix, e)] else []
  }

  /** The frame an entry pushes: one for a sub-table, none otherwise. */
  function FrameOf(prefix: Path, e: Entry): seq<Frame>
  {
    if e.1.Table? then [EntryFrame(prefix, e)] else []
  }

  /**
    One entry of a popped frame: a string, integer, float or boolean
    appends a variable keyed by the frame's prefix and the entry's key, a
    sub-table pushes a frame under that key, and every other kind is skipped.
   */
  method VisitEntry(prefix: Path, e: Entry, vars0: seq<Var>, stack0: seq<Frame>) returns (vars: seq<Var>, stack: seq<Frame>)
    ensures vars == vars0 + VarOf(prefix, e)
    ensures stack == stack0 + FrameOf(prefix, e)
  {
    var (k, v) := e;
    var key := prefix + [k];
    vars, stack := vars0, stack0;
    match v {
      case Str(s) =>
        vars := vars + [Var(key, SStr(s))];
      case Int(n) =>
        vars := vars + [Var(key, SInt(n))];
      case Float(f) =>
        vars := vars + [Var(key, SFloat(f))];
      case Bool(b) =>
        vars := vars + [Var(key, SBool(b))];
      case Table(t) =>
        stack := stack + [Frame(key, t)];
      case _ =>
    }
  }

  /**
    The flattened document has one variable per scalar leaf, and holds
    exactly the (path, value) pairs of its scalar leaves.
   */
  lemma FlattenLeaves(config: seq<Entry>)
    ensures |Flatten(config)| == CountEntries(config)
    ensures forall v :: v in Flatten(config) <==> LeafAt(Table(config), v.key, v.value)
  {
    FlattenCount([], config);
    forall v | true
      ensures v in Flatten(config) <==> LeafAt(Table(config), v.key, v.value)
    {
      FlattenMembership([], config, v);
      assert v.key[0..] == v.key;
    }
  }

  /**
    One iteration of `walk` keeps the loop invariant: the variables so far
    followed by what the stack still owes are the whole output, and the
    stack owes fewer nodes than before.
   */
  lemma WalkStep(config: seq<Entry>, before: seq<Var>, rest: seq<Frame>, top: Frame, after: seq<Var>, stack: seq<Frame>)
    requires before + DrainStack(rest + [top]) == Flatten(config)
    requires after == before + Leaves(top.prefix, top.entries)
    requires stack == rest + SubFrames(top.prefix, top.entries)
    ensures after + DrainStack(stack) == Flatten(config)
    ensures FramesSize(stack) < FramesSize(rest + [top])
  {
    PopTop(rest, top);
    PushChildren(rest, top.prefix, top.entries);
    Reassociate(before, Leaves(top.prefix, top.entries), DrainStack(stack));
  }

  /**
    Every variable of a document has a non-empty key whose first segment
    names an entry of the root table.
   */
  lemma KeysNonEmpty(config: seq<Entry>)
    ensures forall v :: v in Flatten(config) ==>
      v.key != [] && exists i :: 0 <= i < |config| && config[i].0 == v.key[0]
  {
    forall v | v in Flatten(config)
      ensures v.key != [] && exists i :: 0 <= i < |config| && config[i].0 == v.key[0]
    {
      FlattenMembership([], config, v);
      assert v.key[0..] == v.key;
    }
  }

  /** Popping the top frame: what it owes comes first, and the stack shrinks by its size. */
  lemma PopTop(rest: seq<Frame>, top: Frame)
    ensures DrainStack(rest + [top]) == FlattenEntries(top.prefix, top.entries) + DrainStack(rest)
    ensures FramesSize(rest + [top]) == FramesSize(rest) + 1 + EntriesSize(top.entries)
  {
    DrainAppend(rest, [top]);
    FramesSizeAppend(rest, [top]);
    assert [top][1..] == [];
  }

  /** Pushing a popped table's sub-tables: the stack owes exactly what the table did, and is smaller. */
  lemma PushChildren(rest: seq<Frame>, p: Path, es: seq<Entry>)
    ensures Leaves(p, es) + DrainStack(rest + SubFrames(p, es)) == FlattenEntries(p, es) + DrainStack(rest)
    ensures FramesSize(rest + SubFrames(p, es)) < FramesSize(rest) + 1 + EntriesSize(es)
  {
    DrainAppend(rest, SubFrames(p, es));
    FramesSizeAppend(rest, SubFrames(p, es));
  }

  lemma LeavesUnfold(p: Path, es: seq<Entry>, i: nat)
    requires i < |es|
    ensures Leaves(p, es[i..]) == VarOf(p, es[i]) + Leaves(p, es[i + 1..])
  {
    assert es[i..][0] == es[i];
    assert es[i..][1..] == es[i + 1..];
  }

  lemma SubFramesUnfold(p: Path, es: seq<Entry>, i: nat)
    requires i < |es|
    ensures SubFrames(p, es[i..]) == FrameOf(p, es[i]) + SubFrames(p, es[i + 1..])
  {
    assert es[i..][0] == es[i];
    assert es[i..][1..] == es[i + 1..];
  }

  /** Visiting entry `i` moves it from the entries still owed to the variables produced. */
  lemma LeavesStep(p: Path, es: seq<Entry>, i: nat, vars0: seq<Var>, before: seq<Var>, after: seq<Var>)
    requires i < |es|
    requires before + Leaves(p, es[i..]) == vars0 + Leaves(p, es)
    requires after == before + VarOf(p, es[i])
    ensures after + Leaves(p, es[i + 1..]) == vars0 + Leaves(p, es)
  {
    LeavesUnfold(p, es, i);
    Reassociate(before, VarOf(p, es[i]), Leaves(p, es[i + 1..]));
  }

  /** Visiting entry `i` moves it from the entries still owed to the frames pushed. */
  lemma SubFramesStep(p: Path, es: seq<Entry>, i: nat, stack0: seq<Frame>, before: seq<Frame>, after: seq<Frame>)
    requires i < |es|
    requires before + SubFrames(p, es[i..]) == stack0 + SubFrames(p, es)
    requires after == before + FrameOf(p, es[i])
    ensures after + SubFrames(p, es[i + 1..]) == stack0 + SubFrames(p, es)
  {
    SubFramesUnfold(p, es, i);
    Reassociate(before, FrameOf(p, es[i]), SubFrames(p, es[i + 1..]));
  }

  lemma Reassociate<T>(a: seq<T>, b: seq<T>, c: seq<T>)
    ensures (a + b) + c == a + (b + c)
  {
    assert |(a + b) + c| == |a + (b + c)|;
    forall k | 0 <= k < |a + b + c|
      ensures ((a + b) + c)[k] == (a + (b + c))[k]
    {
    }
  }

  lemma {:induction false} FramesSizeAppend(a: seq<Frame>, b: seq<Frame>)
    ensures FramesSize(a + b) == FramesSize(a) + FramesSize(b)
  {
    if a == [] {
      assert a + b == b;
    } else {
      assert (a + b)[0] == a[0];
      assert (a + b)[1..] == a[1..] + b;
      FramesSizeAppend(a[1..], b);
    }
  }

  /** Stack discipline: frames pushed later are drained first. */
  lemma {:induction false} DrainAppend(a: seq<Frame>, b: seq<Frame>)
    ensures DrainStack(a + b) == DrainStack(b) + DrainStack(a)
  {
    if a == [] {
      assert a + b == b;
    } else {
      assert (a + b)[1..] == a[1..] + b;
      DrainAppend(a[1..], b);
    }
  }

  lemma {:induction false} SubTableSmaller(es: seq<Entry>, i: nat)
    requires i < |es| && es[i].1.Table?
    ensures EntriesSize(es[i].1.entries) < EntriesSize(es)
  {
    EntriesSizeCons(es);
    if i > 0 {
      SubTableSmaller(es[1..], i - 1);
    }
  }

  /** A variable comes out of a stack exactly when it comes out of one of its frames. */
  lemma {:induction false} DrainMembership(fs: seq<Frame>, v: Var)
    ensures v in DrainStack(fs) <==>
      exists j :: 0 <= j < |fs| && v in FlattenEntries(fs[j].prefix, fs[j].entries)
  {
    if fs != [] {
      DrainMembership(fs[1..], v);
      assert forall j :: 1 <= j < |fs| ==> fs[j] == fs[1..][j - 1];
    }
  }

  /** A variable produced under `prefix` names a scalar leaf of the table below that prefix. */
  ghost predicate InTable(prefix: Path, es: seq<Entry>, v: Var)
  {
    |prefix| < |v.key| && v.key[..|prefix|] == prefix && LeafAt(Table(es), v.key[|prefix|..], v.value)
  }

  /**
    The variables of a table are exactly its scalar leaves: the key of each
    is the prefix, then the enclosing table keys, then the leaf's own key.
   */
  lemma FlattenMembership(p: Path, es: seq<Entry>, v: Var)
    ensures v in FlattenEntries(p, es) <==> InTable(p, es, v)
  {
    if v in FlattenEntries(p, es) {
      FlattenSound(p, es, v);
    }
    if InTable(p, es, v) {
      FlattenComplete(p, es, v);
    }
  }

  /** A table's own scalar entry is a leaf one segment below the table. */
  lemma LeafSound(p: Path, es: seq<Entry>, v: Var)
    requires v in Leaves(p, es)
    ensures InTable(p, es, v)
  {
    var q, n := v.key, |p|;
    LeavesMembership(p, es);
    var i :| 0 <= i < |es| && AsScalar(es[i].1).Some? && v == EntryVar(p, es[i]);
    assert q[..n] == p;
    assert q[n..] == [es[i].0];
    assert LeafAt(es[i].1, q[n..][1..], v.value);
  }

  /** A leaf of a sub-table is a leaf of the enclosing table, one segment further down. */
  lemma SubTableLeaf(p: Path, es: seq<Entry>, i: nat, v: Var)
    requires i < |es| && es[i].1.Table?
    requires InTable(p + [es[i].0], es[i].1.entries, v)
    ensures InTable(p, es, v)
  {
    var q, n := v.key, |p|;
    assert q[..n + 1] == p + [es[i].0];
    assert q[..n] == q[..n + 1][..n];
    assert q[n..][0] == es[i].0;
    assert q[n..][1..] == q[n + 1..];
    assert LeafAt(es[i].1, q[n..][1..], v.value);
  }

  /** Every variable a table yields is one of its scalar leaves. */
  lemma {:induction false} FlattenSound(p: Path, es: seq<Entry>, v: Var)
    requires v in FlattenEntries(p, es)
    ensures InTable(p, es, v)
    decreases EntriesSize(es)
  {
    if v in Leaves(p, es) {
      LeafSound(p, es, v);
    } else {
      var sf := SubFrames(p, es);
      DrainMembership(sf, v);
      var j :| 0 <= j < |sf| && v in FlattenEntries(sf[j].prefix, sf[j].entries);
      assert sf[j] in sf;
      SubFramesMembership(p, es);
      var i :| 0 <= i < |es| && es[i].1.Table? && sf[j] == EntryFrame(p, es[i]);
      SubTableSmaller(es, i);
      FlattenSound(p + [es[i].0], es[i].1.entries, v);
      SubTableLeaf(p, es, i, v);
    }
  }

  /** Every scalar leaf of a table is among the variables it yields. */
  lemma {:induction false} FlattenComplete(p: Path, es: seq<Entry>, v: Var)
    requires InTable(p, es, v)
    ensures v in FlattenEntries(p, es)
    decreases EntriesSize(es)
  {
    var q, n := v.key, |p|;
    var i :| 0 <= i < |es| && es[i].0 == q[n..][0] && LeafAt(es[i].1, q[n..][1..], v.value);
    if |q| == n + 1 {
      assert q[n..][1..] == [];
      assert q == q[..n] + [q[n]];
      assert v == EntryVar(p, es[i]);
      LeavesMembership(p, es);
    } else {
      var sf := SubFrames(p, es);
      assert q[n..][1..] == q[n + 1..];
      var f := EntryFrame(p, es[i]);
      SubFramesMembership(p, es);
      assert f in sf;
      var j :| 0 <= j < |sf| && sf[j] == f;
      SubTableSmaller(es, i);
      assert q[..n + 1] == q[..n] + [q[n]];
      FlattenComplete(p + [es[i].0], es[i].1.entries, v);
      DrainMembership(sf, v);
    }
  }

  lemma {:induction false} LeavesAndSubFramesCount(p: Path, es: seq<Entry>)
    ensures CountEntries(es) == |Leaves(p, es)| + FramesCount(SubFrames(p, es))
  {
    if es != [] {
      LeavesAndSubFramesCount(p, es[1..]);
      if es[0].1.Table? {
        var rest := SubFrames(p, es[1..]);
        assert SubFrames(p, es) == [EntryFrame(p, es[0])] + rest;
        assert (([EntryFrame(p, es[0])] + rest)[1..]) == rest;
      }
    }
  }

  /** One variable per scalar leaf of the tree. */
  lemma {:induction false} FlattenCount(p: Path, es: seq<Entry>)
    ensures |FlattenEntries(p, es)| == CountEntries(es)
    decreases EntriesSize(es), 1
  {
    LeavesAndSubFramesCount(p, es);
    DrainCount(SubFrames(p, es));
  }

  lemma {:induction false} DrainCount(fs: seq<Frame>)
    ensures |DrainStack(fs)| == FramesCount(fs)
    decreases FramesSize(fs), 0
  {
    if fs != [] {
      DrainCount(fs[1..]);
      FlattenCount(fs[0].prefix, fs[0].entries);
    }
  }

  lemma {:induction false} LeavesAppend(p: Path, a: seq<Entry>, b: seq<Entry>)
    ensures Leaves(p, a + b) == Leaves(p, a) + Leaves(p, b)
  {
    if a == [] {
      assert a + b == b;
    } else {
      assert (a + b)[0] == a[0];
      assert (a + b)[1..] == a[1..] + b;
      LeavesAppend(p, a[1..], b);
    }
  }

  lemma {:induction false} SubFramesAppend(p: Path, a: seq<Entry>, b: seq<Entry>)
    ensures SubFrames(p, a + b) == SubFrames(p, a) + SubFrames(p, b)
  {
    if a == [] {
      assert a + b == b;
    } else {
      assert (a + b)[0] == a[0];
      assert (a + b)[1..] == a[1..] + b;
      SubFramesAppend(p, a[1..], b);
    }
  }

  lemma LeavesSkip(p: Path, a: seq<Entry>, e: Entry, b: seq<Entry>)
    requires e.1.Arr? || e.1.Other?
    ensures Leaves(p, a + [e] + b) == Leaves(p, a + b)
  {
    assert [e][1..] == [];
    assert Leaves(p, [e]) == [];
    LeavesAppend(p, a + [e], b);
    LeavesAppend(p, a, [e]);
    LeavesAppend(p, a, b);
    assert Leaves(p, a) + [] == Leaves(p, a);
  }

  lemma SubFramesSkip(p: Path, a: seq<Entry>, e: Entry, b: seq<Entry>)
    requires e.1.Arr? || e.1.Other?
    ensures SubFrames(p, a + [e] + b) == SubFrames(p, a + b)
  {
    assert [e][1..] == [];
    assert SubFrames(p, [e]) == [];
    SubFramesAppend(p, a + [e], b);
    SubFramesAppend(p, a, [e]);
    SubFramesAppend(p, a, b);
    assert SubFrames(p, a) + [] == SubFrames(p, a);
  }

  /**
    An array or other unsupported entry is skipped: removing it from the
    table changes nothing in the output, wherever it stands.
   */
  lemma SkipUnsupported(p: Path, a: seq<Entry>, e: Entry, b: seq<Entry>)
    requires e.1.Arr? || e.1.Other?
    ensures FlattenEntries(p, a + [e] + b) == FlattenEntries(p, a + b)
  {
    LeavesSkip(p, a, e, b);
    SubFramesSkip(p, a, e, b);
  }

  /** The last key segment of a variable or frame: the entry's own key. */
  function Name(key: Path): string
  {
    if key == [] then "" else key[|key| - 1]
  }

  /** A sorted table's own scalar entries come out in ascending key order. */
  lemma {:induction false} LeavesAscending(p: Path, es: seq<Entry>)
    requires SortedKeys(es)
    ensures forall a, b :: 0 <= a < b < |Leaves(p, es)| ==>
      Less(Name(Leaves(p, es)[a].key), Name(Leaves(p, es)[b].key))
  {
    if es != [] {
      var e, tail := es[0], es[1..];
      assert SortedKeys(tail);
      LeavesAscending(p, tail);
      var lt := Leaves(p, tail);
      if AsScalar(e.1).Some? {
        LeavesMembership(p, tail);
        forall v | v in lt
          ensures Less(e.0, Name(v.key))
        {
          var i :| 0 <= i < |tail| && AsScalar(tail[i].1).Some? && v == EntryVar(p, tail[i]);
          assert tail[i] == es[i + 1];
        }
        var l := Leaves(p, es);
        assert l == [EntryVar(p, e)] + lt;
        forall a, b | 0 <= a < b < |l|
          ensures Less(Name(l[a].key), Name(l[b].key))
        {
          assert l[b] == lt[b - 1];
          if a == 0 {
            assert l[b] in lt;
          } else {
            assert l[a] == lt[a - 1];
          }
        }
      }
    }
  }

  /** A sorted table pushes its sub-table frames in ascending key order. */
  lemma {:induction false} SubFramesAscending(p: Path, es: seq<Entry>)
    requires SortedKeys(es)
    ensures forall a, b :: 0 <= a < b < |SubFrames(p, es)| ==>
      Less(Name(SubFrames(p, es)[a].prefix), Name(SubFrames(p, es)[b].prefix))
  {
    if es != [] {
      var e, tail := es[0], es[1..];
      assert SortedKeys(tail);
      SubFramesAscending(p, tail);
      var ft := SubFrames(p, tail);
      if e.1.Table? {
        SubFramesMembership(p, tail);
        forall f | f in ft
          ensures Less(e.0, Name(f.prefix))
        {
          var i :| 0 <= i < |tail| && tail[i].1.Table? && f == EntryFrame(p, tail[i]);
          assert tail[i] == es[i + 1];
        }
        var sf := SubFrames(p, es);
        assert sf == [EntryFrame(p, e)] + ft;
        forall a, b | 0 <= a < b < |sf|
          ensures Less(Name(sf[a].prefix), Name(sf[b].prefix))
        {
          assert sf[b] == ft[b - 1];
          if a == 0 {
            assert sf[b] in ft;
          } else {
            assert sf[a] == ft[a - 1];
          }
        }
      }
    }
  }

  /**
    After a table's own scalars, the last sub-table pushed (with sorted
    keys, the greatest) is expanded first, then the rest of the stack.
   */
  lemma LastPushedFirst(p: Path, es: seq<Entry>)
    requires SubFrames(p, es) != []
    ensures
      var sf := SubFrames(p, es);
      var top := sf[|sf| - 1];
      FlattenEntries(p, es) == Leaves(p, es) + FlattenEntries(top.prefix, top.entries) + DrainStack(sf[..|sf| - 1])
  {
    var sf := SubFrames(p, es);
    var top := sf[|sf| - 1];
    assert sf == sf[..|sf| - 1] + [top];
    PopTop(sf[..|sf| - 1], top);
  }
}
