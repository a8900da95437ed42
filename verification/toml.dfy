/**
  The parsed configuration document, as the `toml` crate hands it to the
  flattener. Parsing itself belongs to that crate and is not modelled: a
  document is given directly as a `Value` tree.
 */
module Toml {

  /** TOML integers are signed 64-bit. */
  type Int64 = i: int | -0x8000_0000_0000_0000 <= i < 0x8000_0000_0000_0000

  /**
    A TOML value. A float is carried as the text its `Display` rendering
    produces, since floating-point formatting is outside the model. Arrays
    keep their items; `Other` stands for the remaining kinds (datetimes).
    A table is an association list of (key, value) entries.
   */
  datatype Value =
    | Str(s: string)
    | Int(i: Int64)
    | Float(text: string)
    | Bool(b: bool)
    | Arr(items: seq<Value>)
    | Other
    | Table(entries: seq<Entry>)

  type Entry = (string, Value)

  /** Number of nodes of a value: every value counts one, a table adds its entries. */
  function Size(v: Value): (n: nat)
    ensures n >= 1
    decreases v
  {
    match v
    case Table(es) => 1 + EntriesSizeWithin(es, v)
    case _ => 1
  }

  /**
    Sum of the sizes of the entries' values. The ghost `parent` is a value
    that every entry value is a component of; it gives the structural
    termination measure and does not affect the result.
   */
  function EntriesSizeWithin(es: seq<Entry>, ghost parent: Value): nat
    requires forall e :: e in es ==> e.1 < parent
    decreases parent, |es|
  {
    if es == [] then 0 else Size(es[0].1) + EntriesSizeWithin(es[1..], parent)
  }

  function EntriesSize(es: seq<Entry>): nat
  {
    EntriesSizeWithin(es, Table(es))
  }

  lemma {:induction false} EntriesSizeWithinAny(es: seq<Entry>, p: Value, q: Value)
    requires forall e :: e in es ==> e.1 < p
    requires forall e :: e in es ==> e.1 < q
    ensures EntriesSizeWithin(es, p) == EntriesSizeWithin(es, q)
    decreases |es|
  {
    if es != [] {
      EntriesSizeWithinAny(es[1..], p, q);
    }
  }

  /** The entry sizes add up front to back. */
  lemma EntriesSizeCons(es: seq<Entry>)
    requires es != []
    ensures EntriesSize(es) == Size(es[0].1) + EntriesSize(es[1..])
  {
    EntriesSizeWithinAny(es[1..], Table(es), Table(es[1..]));
  }

  /** Lexicographic order on keys, character by character: the order of Rust's `String`. */
  predicate Less(a: string, b: string)
  {
    if a == [] then b != []
    else if b == [] then false
    else if a[0] != b[0] then a[0] < b[0]
    else Less(a[1..], b[1..])
  }

  /** Keys of a table are distinct and in ascending order (a `BTreeMap`). */
  predicate SortedKeys(es: seq<Entry>)
  {
    forall i, j :: 0 <= i < j < |es| ==> Less(es[i].0, es[j].0)
  }

  /** Every table in the tree has sorted keys: the shape the parser produces. */
  predicate WellFormed(v: Value)
  {
    match v
    case Table(es) => SortedKeys(es) && forall i :: 0 <= i < |es| ==> WellFormed(es[i].1)
    case _ => true
  }

  /** `Less` is irreflexive, so sorted keys are pairwise distinct. */
  lemma {:induction false} LessIrreflexive(a: string)
    ensures !Less(a, a)
  {
    if a != [] {
      LessIrreflexive(a[1..]);
    }
  }

  lemma SortedKeysDistinct(es: seq<Entry>, i: nat, j: nat)
    requires SortedKeys(es)
    requires i < j < |es|
    ensures es[i].0 != es[j].0
  {
    if es[i].0 == es[j].0 {
      LessIrreflexive(es[i].0);
    }
  }

  /** Keys that agree up to position `k` and differ there are ordered by that character. */
  lemma {:induction false} LessAt(a: string, b: string, k: nat)
    requires k < |a| && k < |b| && a[..k] == b[..k] && a[k] < b[k]
    ensures Less(a, b)
  {
    if k > 0 {
      assert a[0] == a[..k][0] == b[..k][0] == b[0];
      assert a[1..][..k - 1] == a[1..k] == a[..k][1..];
      assert b[1..][..k - 1] == b[1..k] == b[..k][1..];
      LessAt(a[1..], b[1..], k - 1);
    }
  }

  /** A proper prefix comes first. */
  lemma {:induction false} LessPrefix(a: string, b: string)
    requires |a| < |b| && b[..|a|] == a
    ensures Less(a, b)
  {
    if a != [] {
      assert a[0] == b[..|a|][0] == b[0];
      assert b[1..][..|a| - 1] == b[..|a|][1..];
      LessPrefix(a[1..], b[1..]);
    }
  }

  lemma {:induction false} LessTransitive(a: string, b: string, c: string)
    requires Less(a, b) && Less(b, c)
    ensures Less(a, c)
  {
    if a != [] && a[0] == b[0] && b[0] == c[0] {
      LessTransitive(a[1..], b[1..], c[1..]);
    }
  }

  lemma {:induction false} AdjacentChain(es: seq<Entry>, i: nat, j: nat)
    requires forall k :: 0 <= k < |es| - 1 ==> Less(es[k].0, es[k + 1].0)
    requires i < j < |es|
    ensures Less(es[i].0, es[j].0)
    decreases j - i
  {
    if i + 1 < j {
      AdjacentChain(es, i + 1, j);
      LessTransitive(es[i].0, es[i + 1].0, es[j].0);
    }
  }

  /** Keys ascending between neighbours are ascending throughout. */
  lemma SortedFromAdjacent(es: seq<Entry>)
    requires forall k :: 0 <= k < |es| - 1 ==> Less(es[k].0, es[k + 1].0)
    ensures SortedKeys(es)
  {
    forall i, j | 0 <= i < j < |es|
      ensures Less(es[i].0, es[j].0)
    {
      AdjacentChain(es, i, j);
    }
  }
}
