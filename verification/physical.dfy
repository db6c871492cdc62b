/** The physical tree the render target holds, the single-attribute rule, the
    attribute differ and mount (`render` / `renderElement`). */
module Physical {
  import opened Descriptions

  /** A physical node: a text node or an element with string attributes. */
  datatype PNode =
    | PText(data: string)
    | PElem(tag: string, attrs: map<string, string>, children: seq<PNode>)

  type PAttrs = map<string, string>

  function Digit(d: nat): char
    requires d < 10
  {
    "0123456789"[d]
  }

  /** Decimal notation of a natural number, most significant digit first. */
  function NatToDecimal(n: nat): (s: string)
    ensures |s| > 0 && s[0] != '-'
    decreases n
  {
    if n < 10 then [Digit(n)] else NatToDecimal(n / 10) + [Digit(n % 10)]
  }

  /** JavaScript's string form of an integer-valued number. */
  function IntToDecimal(i: int): string {
    if i < 0 then "-" + NatToDecimal(-i) else NatToDecimal(i)
  }

  /** The payload `setAttribute` receives for a truthy value: `true` is a
      presence-only attribute (""), anything else its string form. */
  function AttrText(v: AttrVal): string
    requires !Falsy(v)
  {
    match v
    case ABool(_) => ""
    case AStr(s) => s
    case AInt(i) => IntToDecimal(i)
    case ANull => ""
  }

  /** The single-attribute rule, applied to a physical attribute map for
      every key of `attrs` (solution.js renders and diffs with the same loop).
      Each key is written once, so the iteration order of `for ... in` does
      not affect the result (names are exact strings here; the DOM's
      lowercasing of HTML attribute names is not modelled). */
  function ApplyRule(p: PAttrs, attrs: Attrs): (r: PAttrs)
    ensures forall k :: k in attrs ==> (k in r <==> !Falsy(attrs[k]))
    ensures forall k :: k in attrs && attrs[k] == ABool(true) ==> k in r && r[k] == ""
    ensures forall k :: k in attrs && attrs[k].AStr? && attrs[k].s != "" ==> k in r && r[k] == attrs[k].s
    ensures forall k :: k in attrs && attrs[k].AInt? && attrs[k].i != 0 ==> k in r && r[k] == IntToDecimal(attrs[k].i)
    ensures forall k :: k !in attrs ==> (k in r <==> k in p)
    ensures forall k :: k !in attrs && k in p ==> r[k] == p[k]
  {
    map k | k in p.Keys + attrs.Keys && (k !in attrs || !Falsy(attrs[k])) ::
      if k in attrs then AttrText(attrs[k]) else p[k]
  }

  /** The attributes of a freshly created element after mounting. */
  function RenderAttrs(attrs: Attrs): (r: PAttrs)
    ensures forall k :: k in r <==> k in attrs && !Falsy(attrs[k])
    ensures forall k :: k in r ==> r[k] == AttrText(attrs[k])
  {
    ApplyRule(map[], attrs)
  }

  /** `diffAttributes`: the rule for every new key, then removal of every old
      key the new map no longer has. */
  function DiffAttributes(p: PAttrs, oldAttrs: Attrs, newAttrs: Attrs): (r: PAttrs)
    ensures forall k :: k in newAttrs ==> (k in r <==> !Falsy(newAttrs[k]))
    ensures forall k :: k in newAttrs && k in r ==> r[k] == AttrText(newAttrs[k])
    ensures forall k :: k in oldAttrs && k !in newAttrs ==> k !in r
    ensures forall k :: k !in oldAttrs && k !in newAttrs ==> (k in r <==> k in p)
    ensures forall k :: k !in oldAttrs && k !in newAttrs && k in p ==> r[k] == p[k]
  {
    var q := ApplyRule(p, newAttrs);
    map k | k in q && (k in newAttrs || k !in oldAttrs) :: q[k]
  }

  /** Diffing the rendering of `oldAttrs` against `newAttrs` yields exactly the
      rendering of `newAttrs`. */
  lemma DiffAttributesRendersNew(oldAttrs: Attrs, newAttrs: Attrs)
    ensures DiffAttributes(RenderAttrs(oldAttrs), oldAttrs, newAttrs) == RenderAttrs(newAttrs)
  {
    var r := DiffAttributes(RenderAttrs(oldAttrs), oldAttrs, newAttrs);
    var s := RenderAttrs(newAttrs);
    assert r.Keys == s.Keys;
    forall k | k in r
      ensures r[k] == s[k]
    {
      assert k in newAttrs;
    }
  }

  /** Re-applying the same attribute map to its own rendering changes nothing. */
  lemma DiffAttributesIdempotent(attrs: Attrs)
    ensures DiffAttributes(RenderAttrs(attrs), attrs, attrs) == RenderAttrs(attrs)
  {
    DiffAttributesRendersNew(attrs, attrs);
  }

  /** The names every plain JavaScript object inherits from
      `Object.prototype`: the `in` operator finds them on any attribute map,
      including the `{}` that `create` substitutes for absent attributes. */
  const InheritedNames: set<string> := {
    "constructor", "toString", "toLocaleString", "valueOf", "hasOwnProperty",
    "isPrototypeOf", "propertyIsEnumerable", "__proto__", "__defineGetter__",
    "__defineSetter__", "__lookupGetter__", "__lookupSetter__"
  }

  /** `diffAttributes` as written: its removal test `key in vNewAttributes`
      also holds for an inherited name, so an old attribute with such a name
      is kept although the new map does not have it. `DiffAttributes` is the
      intended behaviour, which the rest of the model uses. */
  function DiffAttributesAsWritten(p: PAttrs, oldAttrs: Attrs, newAttrs: Attrs): (r: PAttrs)
    ensures forall k :: k in newAttrs ==> (k in r <==> !Falsy(newAttrs[k]))
    ensures forall k :: k in newAttrs && k in r ==> r[k] == AttrText(newAttrs[k])
    ensures forall k :: k in oldAttrs && k !in newAttrs && k !in InheritedNames ==> k !in r
    ensures forall k :: k !in newAttrs && (k !in oldAttrs || k in InheritedNames) ==> (k in r <==> k in p)
    ensures forall k :: k !in newAttrs && (k !in oldAttrs || k in InheritedNames) && k in p ==> r[k] == p[k]
  {
    var q := ApplyRule(p, newAttrs);
    map k | k in q && (k in newAttrs || k !in oldAttrs || k in InheritedNames) :: q[k]
  }

  /** The two differs agree exactly when no old attribute with an inherited
      name, dropped from the new map, is present on the node. */
  lemma AsWrittenAgrees(p: PAttrs, oldAttrs: Attrs, newAttrs: Attrs)
    ensures DiffAttributesAsWritten(p, oldAttrs, newAttrs) == DiffAttributes(p, oldAttrs, newAttrs)
        <==> forall k :: k in oldAttrs && k !in newAttrs && k in InheritedNames ==> k !in p
  {
    var a := DiffAttributesAsWritten(p, oldAttrs, newAttrs);
    var b := DiffAttributes(p, oldAttrs, newAttrs);
    if forall k :: k in oldAttrs && k !in newAttrs && k in InheritedNames ==> k !in p {
      assert a.Keys == b.Keys;
    } else {
      var k :| k in oldAttrs && k !in newAttrs && k in InheritedNames && k in p;
      assert k in a && k !in b;
    }
  }

  /** Old `{"constructor": "x"}`, new `{}`: as written the rendered attribute
      stays, where the intended differ removes it. */
  lemma InheritedNameKept()
    ensures DiffAttributesAsWritten(RenderAttrs(map["constructor" := AStr("x")]), map["constructor" := AStr("x")], map[])
         == map["constructor" := "x"]
    ensures DiffAttributes(RenderAttrs(map["constructor" := AStr("x")]), map["constructor" := AStr("x")], map[])
         == map[]
  {
    var before := map["constructor" := AStr("x")];
    assert "constructor" in InheritedNames;
    assert RenderAttrs(before) == map["constructor" := "x"];
  }

  /** `render`: a text node for a string, otherwise `renderElement`. */
  function Render(d: Desc): (r: PNode)
    ensures d.Text? ==> r == PText(d.value)
    ensures d.Elem? ==> r.PElem? && r.tag == d.tag && r.attrs == RenderAttrs(d.attrs)
    ensures d.Elem? ==> |r.children| == |d.children|
    ensures d.Elem? ==> forall i {:trigger r.children[i]} :: 0 <= i < |d.children| ==> r.children[i] == Render(d.children[i])
    ensures Mirrors(r, d)
    decreases d, 1
  {
    match d
    case Text(s) => PText(s)
    case Elem(tag, attrs, children, _) => PElem(tag, RenderAttrs(attrs), RenderAll(children))
  }

  /** Renders a child list, appending each rendering in order. */
  function RenderAll(ds: seq<Desc>): (r: seq<PNode>)
    ensures |r| == |ds|
    ensures forall i {:trigger r[i]} :: 0 <= i < |ds| ==> r[i] == Render(ds[i])
    ensures MirrorsAll(r, ds)
    decreases ds, 0
  {
    if |ds| == 0 then [] else [Render(ds[0])] + RenderAll(ds[1..])
  }

  /** The physical node has the shape of the description it was rendered from:
      a text node for a string, an element with as many children, each of the
      right shape, for an element. Tags and attributes may differ. */
  predicate Mirrors(p: PNode, d: Desc)
    decreases d, 1
  {
    match d
    case Text(_) => p.PText?
    case Elem(_, _, children, _) => p.PElem? && MirrorsAll(p.children, children)
  }

  predicate MirrorsAll(ps: seq<PNode>, ds: seq<Desc>)
    decreases ds, 0
  {
    |ps| == |ds| && forall i :: 0 <= i < |ds| ==> Mirrors(ps[i], ds[i])
  }
}
