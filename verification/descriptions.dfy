/** Virtual-tree descriptions: the immutable values a caller builds with the
    factory, the snapshot store keeps, and the reconciler compares. */
module Descriptions {
  import opened Wrappers

  /** An attribute value as a caller supplies it. JavaScript numbers are
      restricted to integers. */
  datatype AttrVal = ABool(b: bool) | AStr(s: string) | AInt(i: int) | ANull

  /** JavaScript falsiness of an attribute value: `false`, `""`, `0` and `null`. */
  predicate Falsy(v: AttrVal) {
    match v
    case ABool(b) => !b
    case AStr(s) => s == ""
    case AInt(i) => i == 0
    case ANull => true
  }

  type Attrs = map<string, AttrVal>

  /** A description node: a bare string, or an element carrying the key the
      factory assigned to it. */
  datatype Desc =
    | Text(value: string)
    | Elem(tag: string, attrs: Attrs, children: seq<Desc>, key: int)

  /** The matching key of a child: elements carry their factory key, strings
      have none (`undefined`), so every two strings share the same key. */
  type Key = Option<int>

  function KeyOf(d: Desc): Key {
    match d
    case Text(_) => None
    case Elem(_, _, _, k) => Some(k)
  }

  function KeysOf(ds: seq<Desc>): (ks: seq<Key>)
    ensures |ks| == |ds|
    ensures forall i {:trigger ks[i]} :: 0 <= i < |ds| ==> ks[i] == KeyOf(ds[i])
  {
    seq(|ds|, i requires 0 <= i < |ds| => KeyOf(ds[i]))
  }

  /** The reconciler's matching test `a === b || a.key === b.key`. Identical
      values have identical keys, so it is equality of keys. */
  predicate Matches(a: Desc, b: Desc) {
    KeyOf(a) == KeyOf(b)
  }

  /** Two strings always match each other, whatever their contents; a string
      never matches an element; two elements match exactly when they carry
      the same factory key. */
  lemma MatchCases(a: Desc, b: Desc)
    ensures a.Text? && b.Text? ==> Matches(a, b)
    ensures a.Text? != b.Text? ==> !Matches(a, b)
    ensures a.Elem? && b.Elem? ==> (Matches(a, b) <==> a.key == b.key)
  {
  }

  /** The description factory: the next key to hand out. */
  datatype Factory = Factory(next: int)

  /** The factory of a fresh session: keys start at 1. */
  const NewFactory := Factory(1)

  /** Builds an element with the current counter as its key and advances the
      counter. An absent (falsy) attribute argument becomes an empty map. */
  function Create(f: Factory, tag: string, attrs: Option<Attrs>, children: seq<Desc>): (r: (Desc, Factory))
    ensures r.0.Elem? && r.0.tag == tag && r.0.children == children
    ensures r.0.key == f.next && r.1.next == f.next + 1
    ensures attrs.None? ==> r.0.attrs == map[]
    ensures attrs.Some? ==> r.0.attrs == attrs.value
  {
    (Elem(tag, if attrs.Some? then attrs.value else map[], children, f.next), Factory(f.next + 1))
  }

  /** The arguments of one `create` call. */
  datatype CreateArgs = CreateArgs(tag: string, attrs: Option<Attrs>, children: seq<Desc>)

  /** A run of successive `create` calls on one factory: the keys handed out
      are strictly increasing, hence pairwise distinct, and all lie between
      the counter before and the counter after the run. */
  function CreateAll(f: Factory, calls: seq<CreateArgs>): (r: (seq<Desc>, Factory))
    ensures |r.0| == |calls| && r.1.next == f.next + |calls|
    ensures forall i :: 0 <= i < |r.0| ==> r.0[i].Elem? && f.next <= r.0[i].key < r.1.next
    ensures forall i, j :: 0 <= i < j < |r.0| ==> r.0[i].key < r.0[j].key
    decreases |calls|
  {
    if |calls| == 0 then ([], f)
    else
      var (d, f') := Create(f, calls[0].tag, calls[0].attrs, calls[0].children);
      var (rest, f'') := CreateAll(f', calls[1..]);
      ([d] + rest, f'')
  }

  /** Deep structural clone of a description, the snapshot store's `copy`. */
  function Copy(d: Desc): Desc
    decreases d
  {
    match d
    case Text(s) => Text(s)
    case Elem(tag, attrs, children, key) => Elem(tag, attrs, CopyAll(children), key)
  }

  function CopyAll(ds: seq<Desc>): seq<Desc>
    decreases ds
  {
    if |ds| == 0 then [] else [Copy(ds[0])] + CopyAll(ds[1..])
  }

  /** The clone is structurally equal to the original, at every depth. */
  lemma {:induction false} CopyIsIdentity(d: Desc)
    ensures Copy(d) == d
    decreases d
  {
    match d
    case Text(_) =>
    case Elem(_, _, children, _) =>
      CopyAllIsIdentity(children);
  }

  lemma {:induction false} CopyAllIsIdentity(ds: seq<Desc>)
    ensures CopyAll(ds) == ds
    decreases ds
  {
    if |ds| > 0 {
      CopyIsIdentity(ds[0]);
      CopyAllIsIdentity(ds[1..]);
      assert [ds[0]] + ds[1..] == ds;
    }
  }

  /** A size measure, for termination of the mutually recursive differ. */
  function Size(d: Desc): nat
    decreases d
  {
    match d
    case Text(_) => 1
    case Elem(_, _, children, _) => 1 + SizeAll(children)
  }

  function SizeAll(ds: seq<Desc>): nat
    decreases ds
  {
    if |ds| == 0 then 0 else Size(ds[0]) + SizeAll(ds[1..])
  }

  lemma {:induction false} SizeAllBound(ds: seq<Desc>, i: int)
    requires 0 <= i < |ds|
    ensures Size(ds[i]) <= SizeAll(ds)
    decreases ds
  {
    if i > 0 {
      SizeAllBound(ds[1..], i - 1);
    }
  }
}
