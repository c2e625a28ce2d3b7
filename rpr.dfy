/**
 The `w:rPr` run-properties block: an ordered list of property elements, each with
 an optional `w:val` attribute, kept in the order the WordprocessingML schema
 (CT_RPr) fixes for them.
 */
module RunProperties {
  import opened Wrappers

  /** Errors raised while reading or writing run properties. */
  datatype Error =
    | InvalidXml(literal: string)   // an attribute literal outside its XML type
    | InvalidUnderline              // "... is not a valid WD_UNDERLINE"

  /** The child elements of `w:rPr`, listed in schema order. */
  datatype RPrTag =
    | RStyle | RFonts | B | BCs | I | ICs | Caps | SmallCaps | Strike | DStrike
    | Outline | Shadow | Emboss | Imprint | NoProof | SnapToGrid | Vanish | WebHidden
    | Color | Spacing | W | Kern | Position | Sz | SzCs | Highlight | U | Effect
    | Bdr | Shd | FitText | VertAlign | Rtl | Cs | Em | Lang | EastAsianLayout
    | SpecVanish | OMath

  const TagCount: nat := 39

  /** Position of a tag in the schema sequence. */
  function Rank(t: RPrTag): (r: nat)
    ensures r < TagCount
  {
    match t
    case RStyle => 0 case RFonts => 1 case B => 2 case BCs => 3 case I => 4
    case ICs => 5 case Caps => 6 case SmallCaps => 7 case Strike => 8 case DStrike => 9
    case Outline => 10 case Shadow => 11 case Emboss => 12 case Imprint => 13
    case NoProof => 14 case SnapToGrid => 15 case Vanish => 16 case WebHidden => 17
    case Color => 18 case Spacing => 19 case W => 20 case Kern => 21 case Position => 22
    case Sz => 23 case SzCs => 24 case Highlight => 25 case U => 26 case Effect => 27
    case Bdr => 28 case Shd => 29 case FitText => 30 case VertAlign => 31 case Rtl => 32
    case Cs => 33 case Em => 34 case Lang => 35 case EastAsianLayout => 36
    case SpecVanish => 37 case OMath => 38
  }

  /** The tag at a position of the schema sequence; the inverse of Rank. */
  function TagAt(r: nat): RPrTag
    requires r < TagCount
  {
    match r
    case 0 => RStyle case 1 => RFonts case 2 => B case 3 => BCs case 4 => I
    case 5 => ICs case 6 => Caps case 7 => SmallCaps case 8 => Strike case 9 => DStrike
    case 10 => Outline case 11 => Shadow case 12 => Emboss case 13 => Imprint
    case 14 => NoProof case 15 => SnapToGrid case 16 => Vanish case 17 => WebHidden
    case 18 => Color case 19 => Spacing case 20 => W case 21 => Kern case 22 => Position
    case 23 => Sz case 24 => SzCs case 25 => Highlight case 26 => U case 27 => Effect
    case 28 => Bdr case 29 => Shd case 30 => FitText case 31 => VertAlign case 32 => Rtl
    case 33 => Cs case 34 => Em case 35 => Lang case 36 => EastAsianLayout
    case 37 => SpecVanish case _ => OMath
  }

  /** TagAt undoes Rank. */
  lemma TagAtRank(t: RPrTag)
    ensures TagAt(Rank(t)) == t
  {
    match t
    case RStyle => case RFonts => case B => case BCs => case I => case ICs =>
    case Caps => case SmallCaps => case Strike => case DStrike => case Outline =>
    case Shadow => case Emboss => case Imprint => case NoProof => case SnapToGrid =>
    case Vanish => case WebHidden => case Color => case Spacing => case W =>
    case Kern => case Position => case Sz => case SzCs => case Highlight => case U =>
    case Effect => case Bdr => case Shd => case FitText => case VertAlign =>
    case Rtl => case Cs => case Em => case Lang => case EastAsianLayout =>
    case SpecVanish => case OMath =>
  }

  /** Rank is one-to-one: a tag is determined by its schema position. */
  lemma RankInjective(s: RPrTag, t: RPrTag)
    ensures Rank(s) == Rank(t) ==> s == t
  {
    TagAtRank(s);
    TagAtRank(t);
  }

  /** The on/off (CT_OnOff) properties: the tri-state boolean flags. */
  predicate IsOnOff(t: RPrTag)
  {
    t in {B, BCs, I, ICs, Caps, SmallCaps, Strike, DStrike, Outline, Shadow, Emboss,
          Imprint, NoProof, SnapToGrid, Vanish, WebHidden, Rtl, Cs, SpecVanish, OMath}
  }

  /** One property element of `w:rPr` with its `w:val` attribute, if any. */
  datatype Prop = Prop(tag: RPrTag, val: Option<string>)

  /** Index of the first element with tag `t` (the element a ZeroOrOne getter finds). */
  function Find(props: seq<Prop>, t: RPrTag): (r: Option<nat>)
    ensures r.Some? ==> r.value < |props| && props[r.value].tag == t
    ensures r.Some? ==> forall k :: 0 <= k < r.value ==> props[k].tag != t
    ensures r.None? ==> forall k :: 0 <= k < |props| ==> props[k].tag != t
  {
    if props == [] then None
    else if props[0].tag == t then Some(0)
    else match Find(props[1..], t)
      case None => None
      case Some(k) => Some(k + 1)
  }

  /** The first element with tag `t`, as the property getter sees it. */
  function First(props: seq<Prop>, t: RPrTag): (r: Option<Prop>)
    ensures r.Some? ==> r.value.tag == t && r.value in props
    ensures r.None? ==> forall k :: 0 <= k < |props| ==> props[k].tag != t
  {
    if props == [] then None
    else if props[0].tag == t then Some(props[0])
    else First(props[1..], t)
  }

  /** First and Find agree: the element found is the one at the index found. */
  lemma {:induction false} FirstIsAtFind(props: seq<Prop>, t: RPrTag)
    ensures First(props, t) == if Find(props, t).Some? then Some(props[Find(props, t).value]) else None
  {
    if props != [] && props[0].tag != t {
      FirstIsAtFind(props[1..], t);
      var f := Find(props[1..], t);
      if f.Some? {
        assert props[f.value + 1] == props[1..][f.value];
      }
    }
  }

  /** Every element with tag `t` removed, the rest kept in order (`_remove_x`). */
  function Remove(props: seq<Prop>, t: RPrTag): (r: seq<Prop>)
    ensures |r| <= |props|
    ensures forall k :: 0 <= k < |r| ==> r[k].tag != t
    ensures forall p :: p in r <==> p in props && p.tag != t
  {
    if props == [] then []
    else
      assert props == [props[0]] + props[1..];
      if props[0].tag == t then Remove(props[1..], t)
      else [props[0]] + Remove(props[1..], t)
  }

  /**
   Where a new element with tag rank `m` or later goes: the successor tags are tried
   in schema order and the first one present decides (`first_child_found_in`).
   */
  function FoundFrom(props: seq<Prop>, m: nat): (r: Option<nat>)
    decreases TagCount - m
    ensures r.Some? ==> r.value < |props| && Rank(props[r.value].tag) >= m
    ensures r.None? ==> forall k :: 0 <= k < |props| ==> Rank(props[k].tag) < m
  {
    if m >= TagCount then None
    else match FindRank(props, m)
      case Some(i) => Some(i)
      case None => FoundFrom(props, m + 1)
  }

  /** Index of the first element whose tag is the one at schema position `m`. */
  function FindRank(props: seq<Prop>, m: nat): (r: Option<nat>)
    ensures r.Some? ==> r.value < |props| && Rank(props[r.value].tag) == m
    ensures r.Some? ==> forall k :: 0 <= k < r.value ==> Rank(props[k].tag) != m
    ensures r.None? ==> forall k :: 0 <= k < |props| ==> Rank(props[k].tag) != m
  {
    if props == [] then None
    else if Rank(props[0].tag) == m then Some(0)
    else match FindRank(props[1..], m)
      case None => None
      case Some(k) => Some(k + 1)
  }

  /** The index a new element with tag `t` is inserted at (`insert_element_before`). */
  function InsertPos(props: seq<Prop>, t: RPrTag): (k: nat)
    ensures k <= |props|
    ensures k < |props| ==> Rank(props[k].tag) > Rank(t)
    ensures k == |props| ==> forall j :: 0 <= j < |props| ==> Rank(props[j].tag) <= Rank(t)
  {
    match FoundFrom(props, Rank(t) + 1)
    case Some(i) => i
    case None => |props|
  }

  /** `props` with `p` inserted in front of its first successor, or appended. */
  function Insert(props: seq<Prop>, p: Prop): (r: seq<Prop>)
    ensures |r| == |props| + 1
    ensures forall q :: q in r <==> q in props || q == p
  {
    var k := InsertPos(props, p.tag);
    assert props == props[..k] + props[k..];
    props[..k] + [p] + props[k..]
  }

  lemma {:induction false} FoundFromEmpty(m: nat)
    ensures FoundFrom([], m).None?
    decreases TagCount - m
  {
    if m < TagCount {
      FoundFromEmpty(m + 1);
    }
  }

  /** Into an empty block, the new element goes alone. */
  lemma InsertEmpty(p: Prop)
    ensures Insert([], p) == [p]
  {
    FoundFromEmpty(Rank(p.tag) + 1);
  }

  /** Schema order with at most one element per tag, as a valid `w:rPr` has it. */
  ghost predicate Ordered(props: seq<Prop>)
  {
    forall i, j :: 0 <= i < j < |props| ==> Rank(props[i].tag) < Rank(props[j].tag)
  }

  /** Index of the first element whose tag comes at or after schema position `m`. */
  function FirstRankAtLeast(props: seq<Prop>, m: nat): (r: Option<nat>)
    ensures r.Some? ==> r.value < |props| && Rank(props[r.value].tag) >= m
    ensures r.Some? ==> forall k :: 0 <= k < r.value ==> Rank(props[k].tag) < m
    ensures r.None? ==> forall k :: 0 <= k < |props| ==> Rank(props[k].tag) < m
  {
    if props == [] then None
    else if Rank(props[0].tag) >= m then Some(0)
    else match FirstRankAtLeast(props[1..], m)
      case None => None
      case Some(k) => Some(k + 1)
  }

  /** On an ordered block, trying successor tags in schema order finds the first successor in document order. */
  lemma {:induction false} FoundFromOrdered(props: seq<Prop>, m: nat)
    requires Ordered(props)
    ensures FoundFrom(props, m) == FirstRankAtLeast(props, m)
    decreases TagCount - m
  {
    if m < TagCount && FindRank(props, m).None? {
      FoundFromOrdered(props, m + 1);
    }
  }

  /** A splice is ordered when both sides are and `p` sits strictly between them. */
  lemma SpliceOrdered(a: seq<Prop>, p: Prop, b: seq<Prop>)
    requires Ordered(a) && Ordered(b)
    requires forall i :: 0 <= i < |a| ==> Rank(a[i].tag) < Rank(p.tag)
    requires forall i :: 0 <= i < |b| ==> Rank(p.tag) < Rank(b[i].tag)
    ensures Ordered(a + [p] + b)
  {
    var r := a + [p] + b;
    forall i, j | 0 <= i < j < |r|
      ensures Rank(r[i].tag) < Rank(r[j].tag)
    {
      if j < |a| {
        assert r[i] == a[i] && r[j] == a[j];
      } else if j == |a| {
        assert r[i] == a[i] && r[j] == p;
      } else if i < |a| {
        assert r[i] == a[i] && r[j] == b[j - |a| - 1];
      } else if i == |a| {
        assert r[i] == p && r[j] == b[j - |a| - 1];
      } else {
        assert r[i] == b[i - |a| - 1] && r[j] == b[j - |a| - 1];
      }
    }
  }

  /** Inserting a tag that is absent keeps an ordered block ordered. */
  lemma InsertOrdered(props: seq<Prop>, p: Prop)
    requires Ordered(props)
    requires forall k :: 0 <= k < |props| ==> props[k].tag != p.tag
    ensures Ordered(Insert(props, p))
  {
    var m := Rank(p.tag) + 1;
    FoundFromOrdered(props, m);
    var f := FirstRankAtLeast(props, m);
    var k := if f.Some? then f.value else |props|;
    assert InsertPos(props, p.tag) == k;
    var a, b := props[..k], props[k..];
    BelowInsertPos(props, p, k);
    forall i | 0 <= i < |b|
      ensures Rank(p.tag) < Rank(b[i].tag)
    {
      assert b[i] == props[k + i];
      if i > 0 {
        assert Rank(props[k].tag) < Rank(props[k + i].tag);
      }
    }
    SpliceOrdered(a, p, b);
  }

  /** Before the insertion point every tag ranks below the new one. */
  lemma BelowInsertPos(props: seq<Prop>, p: Prop, k: nat)
    requires k <= |props|
    requires forall i :: 0 <= i < |props| ==> props[i].tag != p.tag
    requires forall i :: 0 <= i < k ==> Rank(props[i].tag) < Rank(p.tag) + 1
    ensures forall i :: 0 <= i < k ==> Rank(props[i].tag) < Rank(p.tag)
  {
    forall i | 0 <= i < k
      ensures Rank(props[i].tag) < Rank(p.tag)
    {
      RankInjective(props[i].tag, p.tag);
    }
  }

  /** Removing elements keeps an ordered block ordered. */
  lemma {:induction false} RemoveOrdered(props: seq<Prop>, t: RPrTag)
    requires Ordered(props)
    ensures Ordered(Remove(props, t))
    ensures forall k :: 0 <= k < |Remove(props, t)| ==>
              exists j :: 0 <= j < |props| && Remove(props, t)[k] == props[j]
  {
    if props != [] {
      RemoveOrdered(props[1..], t);
    }
  }

  /** What the first element of a tag is after a block is spliced at one point. */
  lemma {:induction false} FirstConcat(a: seq<Prop>, b: seq<Prop>, u: RPrTag)
    ensures First(a + b, u) == if First(a, u).Some? then First(a, u) else First(b, u)
  {
    if a == [] {
      assert a + b == b;
    } else {
      assert (a + b)[0] == a[0];
      assert (a + b)[1..] == a[1..] + b;
      FirstConcat(a[1..], b, u);
    }
  }

  /** Removing tag `t` leaves the first element of every other tag where it was. */
  lemma {:induction false} FirstRemove(props: seq<Prop>, t: RPrTag, u: RPrTag)
    ensures First(Remove(props, t), u) == if u == t then None else First(props, u)
  {
    if props != [] {
      var p, rest := props[0], props[1..];
      FirstRemove(rest, t, u);
      assert props == [p] + rest;
      FirstCons(p, rest, u);
      if p.tag != t {
        FirstCons(p, Remove(rest, t), u);
      }
    }
  }

  /** After inserting `p`, its tag is found at `p` when it was absent; other tags are unaffected. */
  lemma FirstInsert(props: seq<Prop>, p: Prop, u: RPrTag)
    requires First(props, p.tag).None?
    ensures First(Insert(props, p), u) == if u == p.tag then Some(p) else First(props, u)
  {
    var k := InsertPos(props, p.tag);
    assert props == props[..k] + props[k..];
    FirstConcat(props[..k], props[k..], u);
    FirstConcat(props[..k], props[k..], p.tag);
    FirstConcat(props[..k] + [p], props[k..], u);
    FirstConcat(props[..k], [p], u);
  }

  /** Replacing the first element of tag `t` in place changes what `t` reads and nothing else. */
  lemma FirstUpdate(props: seq<Prop>, i: nat, q: Prop, u: RPrTag)
    requires i < |props| && props[i].tag == q.tag
    requires forall k :: 0 <= k < i ==> props[k].tag != q.tag
    ensures First(props[i := q], u) == if u == q.tag then Some(q) else First(props, u)
  {
    var a, b := props[..i], props[i + 1..];
    assert props == a + ([props[i]] + b);
    assert props[i := q] == a + ([q] + b);
    FirstAbsent(a, q.tag);
    FirstConcat(a, [props[i]] + b, u);
    FirstConcat(a, [q] + b, u);
    FirstCons(props[i], b, u);
    FirstCons(q, b, u);
  }

  /** The first element of a tag in a block that starts with `p`. */
  lemma FirstCons(p: Prop, b: seq<Prop>, u: RPrTag)
    ensures First([p] + b, u) == if p.tag == u then Some(p) else First(b, u)
  {
    assert ([p] + b)[0] == p && ([p] + b)[1..] == b;
  }

  /** Nothing is found for a tag no element carries. */
  lemma {:induction false} FirstAbsent(props: seq<Prop>, t: RPrTag)
    requires forall k :: 0 <= k < |props| ==> props[k].tag != t
    ensures First(props, t).None?
  {
    if props != [] {
      FirstAbsent(props[1..], t);
    }
  }
}
