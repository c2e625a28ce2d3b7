/**
 The children of a `w:r` element and the read-only views the run derives from
 them: its text, whether it holds a rendered page break, and its inner-content
 items.
 */
module RunContent {
  import opened Wrappers
  import opened RunProperties

  /** The `w:type` of a `w:br`; TextWrapping is the default and is written as no attribute. */
  datatype BrType = TextWrapping | Page | Column

  /** The `w:clear` of a `w:br`. */
  datatype BrClear = ClearNone | ClearLeft | ClearRight | ClearAll

  /** Identifies the `wp:inline` shape a `w:drawing` holds. */
  type InlineId = nat

  /** One child element of `w:r`. */
  datatype Child =
    | RPr(props: seq<Prop>)                         // w:rPr
    | T(text: string, preserve: bool)               // w:t, preserve = xml:space="preserve"
    | Tab                                           // w:tab
    | Br(brType: BrType, clear: Option<BrClear>)    // w:br
    | Cr                                            // w:cr
    | LastRenderedPageBreak                         // w:lastRenderedPageBreak
    | NoBreakHyphen                                 // w:noBreakHyphen
    | Drawing(inline: InlineId)                     // w:drawing

  /** The properties block, if present, is the one first child. */
  ghost predicate WellFormed(cs: seq<Child>)
  {
    forall i :: 0 < i < |cs| ==> !cs[i].RPr?
  }

  /** Appending children other than `w:rPr` keeps the properties block first and alone. */
  lemma WellFormedAppend(cs: seq<Child>, tail: seq<Child>)
    requires WellFormed(cs)
    requires forall k :: 0 <= k < |tail| ==> !tail[k].RPr?
    ensures WellFormed(cs + tail)
  {
  }

  // ----- the properties block -----

  /** Index of the first `w:rPr` child (the `rPr` getter). */
  function RPrIndex(cs: seq<Child>): (r: Option<nat>)
    ensures r.Some? ==> r.value < |cs| && cs[r.value].RPr?
    ensures r.Some? ==> forall k :: 0 <= k < r.value ==> !cs[k].RPr?
    ensures r.None? ==> forall k :: 0 <= k < |cs| ==> !cs[k].RPr?
  {
    if cs == [] then None
    else if cs[0].RPr? then Some(0)
    else match RPrIndex(cs[1..])
      case None => None
      case Some(k) => Some(k + 1)
  }

  /** The run's properties; a run without `w:rPr` reads like an empty one. */
  function PropsOf(cs: seq<Child>): seq<Prop>
  {
    match RPrIndex(cs)
    case Some(i) => cs[i].props
    case None => []
  }

  /** The children with the properties block replaced by `props`, created as first child if missing (`get_or_add_rPr`). */
  function WithProps(cs: seq<Child>, props: seq<Prop>): (r: seq<Child>)
    ensures |r| == if RPrIndex(cs).Some? then |cs| else |cs| + 1
    ensures RPr(props) in r
  {
    match RPrIndex(cs)
    case Some(i) =>
      assert cs[i := RPr(props)][i] == RPr(props);
      cs[i := RPr(props)]
    case None => [RPr(props)] + cs
  }

  /** The children that are not `w:rPr`, in order. */
  function Content(cs: seq<Child>): (r: seq<Child>)
    ensures forall k :: 0 <= k < |r| ==> !r[k].RPr?
    ensures forall c :: c in r <==> c in cs && !c.RPr?
  {
    if cs == [] then []
    else
      assert cs == [cs[0]] + cs[1..];
      if cs[0].RPr? then Content(cs[1..])
      else [cs[0]] + Content(cs[1..])
  }

  /** The `w:rPr` children, in order: what clearing the run keeps. */
  function RPrOnly(cs: seq<Child>): (r: seq<Child>)
    ensures forall k :: 0 <= k < |r| ==> r[k].RPr?
    ensures forall c :: c in r <==> c in cs && c.RPr?
  {
    if cs == [] then []
    else
      assert cs == [cs[0]] + cs[1..];
      if cs[0].RPr? then [cs[0]] + RPrOnly(cs[1..])
      else RPrOnly(cs[1..])
  }

  lemma {:induction false} ContentConcat(a: seq<Child>, b: seq<Child>)
    ensures Content(a + b) == Content(a) + Content(b)
  {
    if a == [] {
      assert a + b == b;
    } else {
      assert (a + b)[1..] == a[1..] + b;
      ContentConcat(a[1..], b);
    }
  }

  lemma {:induction false} RPrOnlyConcat(a: seq<Child>, b: seq<Child>)
    ensures RPrOnly(a + b) == RPrOnly(a) + RPrOnly(b)
  {
    if a == [] {
      assert a + b == b;
    } else {
      assert (a + b)[1..] == a[1..] + b;
      RPrOnlyConcat(a[1..], b);
    }
  }

  lemma {:induction false} RPrOnlyNone(cs: seq<Child>)
    requires forall k :: 0 <= k < |cs| ==> !cs[k].RPr?
    ensures RPrOnly(cs) == []
  {
    if cs != [] {
      RPrOnlyNone(cs[1..]);
    }
  }

  /**
   What clearing keeps reads exactly the same properties, holds no content and
   no text, and keeps the properties block the one first child.
   */
  lemma {:induction false} RPrOnlySpec(cs: seq<Child>)
    ensures PropsOf(RPrOnly(cs)) == PropsOf(cs)
    ensures Content(RPrOnly(cs)) == [] && Text(RPrOnly(cs)) == ""
    ensures WellFormed(cs) ==> WellFormed(RPrOnly(cs))
  {
    if cs != [] {
      var rest := cs[1..];
      RPrOnlySpec(rest);
      if cs[0].RPr? {
        var r := [cs[0]] + RPrOnly(rest);
        assert r[0] == cs[0] && r[1..] == RPrOnly(rest);
        if WellFormed(cs) {
          RPrOnlyNone(rest);
        }
      } else {
        assert forall k :: 0 <= k < |rest| ==> rest[k] == cs[k + 1];
        if WellFormed(cs) {
          RPrOnlyNone(rest);
        }
      }
    }
  }

  /** Appending children other than `w:rPr` leaves the properties as they read. */
  lemma {:induction false} PropsOfAppend(cs: seq<Child>, tail: seq<Child>)
    requires forall k :: 0 <= k < |tail| ==> !tail[k].RPr?
    ensures PropsOf(cs + tail) == PropsOf(cs)
  {
    match RPrIndex(cs)
    case Some(i) =>
      RPrIndexAt(cs + tail, i);
    case None =>
      assert forall k :: 0 <= k < |cs + tail| ==> !(cs + tail)[k].RPr?;
  }

  /** Replacing the properties block reads back the new properties and leaves the content children as they were. */
  lemma WithPropsSpec(cs: seq<Child>, props: seq<Prop>)
    ensures RPrIndex(WithProps(cs, props)).Some?
    ensures PropsOf(WithProps(cs, props)) == props
    ensures Content(WithProps(cs, props)) == Content(cs)
    ensures WellFormed(cs) ==> WellFormed(WithProps(cs, props))
  {
    match RPrIndex(cs)
    case None =>
      assert ([RPr(props)] + cs)[1..] == cs;
    case Some(i) =>
      var r := cs[i := RPr(props)];
      assert RPrIndex(r) == Some(i) by {
        RPrIndexAt(r, i);
      }
      assert cs == cs[..i] + [cs[i]] + cs[i + 1..];
      assert r == cs[..i] + [RPr(props)] + cs[i + 1..];
      ContentConcat(cs[..i] + [cs[i]], cs[i + 1..]);
      ContentConcat(cs[..i], [cs[i]]);
      ContentConcat(cs[..i] + [RPr(props)], cs[i + 1..]);
      ContentConcat(cs[..i], [RPr(props)]);
      assert Content([cs[i]]) == [] && Content([RPr(props)]) == [] by {
        assert [cs[i]][1..] == [] && [RPr(props)][1..] == [];
      }
  }

  /** RPrIndex finds a `w:rPr` at `i` when none comes before it. */
  lemma {:induction false} RPrIndexAt(cs: seq<Child>, i: nat)
    requires i < |cs| && cs[i].RPr? && forall k :: 0 <= k < i ==> !cs[k].RPr?
    ensures RPrIndex(cs) == Some(i)
  {
    if i > 0 {
      RPrIndexAt(cs[1..], i - 1);
    }
  }

  // ----- text -----

  /** What one child contributes to the run's text. */
  function ChildText(c: Child): (r: string)
    ensures !IsTextLike(c) ==> r == ""
    ensures !c.T? ==> |r| <= 1
  {
    match c
    case T(s, _) => s
    case Tab => "\t"
    case Br(ty, _) => if ty == TextWrapping then "\n" else ""
    case Cr => "\n"
    case _ => ""
  }

  /** The run's text: the children's contributions concatenated in document order. */
  function Text(cs: seq<Child>): (r: string)
    ensures (forall k :: 0 <= k < |cs| ==> !IsTextLike(cs[k])) ==> r == ""
  {
    if cs == [] then "" else ChildText(cs[0]) + Text(cs[1..])
  }

  lemma {:induction false} TextConcat(a: seq<Child>, b: seq<Child>)
    ensures Text(a + b) == Text(a) + Text(b)
  {
    if a == [] {
      assert a + b == b;
    } else {
      assert (a + b)[1..] == a[1..] + b;
      TextConcat(a[1..], b);
    }
  }

  /** Children that feed the text stream of an inner-content item. */
  predicate IsTextLike(c: Child)
  {
    c.T? || c.Tab? || c.Br? || c.Cr? || c.NoBreakHyphen?
  }

  /** Children that are inner-content items of their own. */
  predicate IsMarker(c: Child)
  {
    c.LastRenderedPageBreak? || c.Drawing?
  }

  // ----- contains_page_break -----

  /** Whether some child is a rendered page break. */
  function ContainsPageBreak(cs: seq<Child>): (r: bool)
    ensures r <==> exists i :: 0 <= i < |cs| && cs[i].LastRenderedPageBreak?
  {
    if cs == [] then false
    else if cs[0].LastRenderedPageBreak? then true
    else
      var r := ContainsPageBreak(cs[1..]);
      assert forall i :: 1 <= i < |cs| ==> cs[i] == cs[1..][i - 1];
      r
  }

  // ----- breaks -----

  /** The members of WD_BREAK that `Run.add_break` accepts. */
  datatype WdBreak = Line | PageBreak | ColumnBreak | LineClearLeft | LineClearRight | LineClearAll

  /** The `w:br` element a break kind is written as. */
  function BreakChild(k: WdBreak): (r: Child)
    ensures r.Br? && BreakKind(r) == Some(k)
    ensures r.clear.Some? ==> r.brType == TextWrapping
  {
    match k
    case Line => Br(TextWrapping, None)
    case PageBreak => Br(Page, None)
    case ColumnBreak => Br(Column, None)
    case LineClearLeft => Br(TextWrapping, Some(ClearLeft))
    case LineClearRight => Br(TextWrapping, Some(ClearRight))
    case LineClearAll => Br(TextWrapping, Some(ClearAll))
  }

  /** The break kind a `w:br` element stands for, if it is one of the six. */
  function BreakKind(c: Child): Option<WdBreak>
  {
    match c
    case Br(TextWrapping, None) => Some(Line)
    case Br(Page, None) => Some(PageBreak)
    case Br(Column, None) => Some(ColumnBreak)
    case Br(TextWrapping, Some(ClearLeft)) => Some(LineClearLeft)
    case Br(TextWrapping, Some(ClearRight)) => Some(LineClearRight)
    case Br(TextWrapping, Some(ClearAll)) => Some(LineClearAll)
    case _ => None
  }

  /** A line break of any clearing reads as a newline, while page and column breaks read as nothing. */
  lemma BreakChildSpec(k: WdBreak)
    ensures ChildText(BreakChild(k)) == if k in {PageBreak, ColumnBreak} then "" else "\n"
    ensures IsTextLike(BreakChild(k))
  {
  }

  // ----- inner content -----

  /** An inner-content item: a text segment, a rendered page break, or a drawing. */
  datatype Item = Str(s: string) | RenderedPageBreak | DrawingItem(inline: InlineId)

  /** The item a marker child yields. */
  function MarkerItem(c: Child): Item
    requires IsMarker(c)
  {
    if c.Drawing? then DrawingItem(c.inline) else RenderedPageBreak
  }

  /** Length of the leading stretch of children before the first marker. */
  function StretchLen(cs: seq<Child>): (k: nat)
    ensures k <= |cs|
    ensures forall j :: 0 <= j < k ==> !IsMarker(cs[j])
    ensures k < |cs| ==> IsMarker(cs[k])
  {
    if cs == [] || IsMarker(cs[0]) then 0 else 1 + StretchLen(cs[1..])
  }

  /** Whether some child of a stretch is text-like. */
  predicate HasTextLike(cs: seq<Child>)
  {
    exists k :: 0 <= k < |cs| && IsTextLike(cs[k])
  }

  /** The text item a stretch yields: one string for all its text-like children, none when it has no text-like child. */
  function Segment(cs: seq<Child>): seq<Item>
  {
    if HasTextLike(cs) then [Str(Text(cs))] else []
  }

  /**
   The inner-content items: each maximal stretch of children between markers
   gives at most one string item, and each marker gives its own item, in
   document order.
   */
  function InnerContent(cs: seq<Child>): (r: seq<Item>)
    ensures |r| <= |cs|
    ensures (forall k :: 0 <= k < |cs| ==> !IsMarker(cs[k])) ==> |r| <= 1
    decreases |cs|
  {
    var k := StretchLen(cs);
    if k == |cs| then Segment(cs)
    else Segment(cs[..k]) + [MarkerItem(cs[k])] + InnerContent(cs[k + 1..])
  }

  /** A stretch without markers is one segment. */
  lemma InnerContentNoMarker(cs: seq<Child>)
    requires forall k :: 0 <= k < |cs| ==> !IsMarker(cs[k])
    ensures InnerContent(cs) == Segment(cs)
  {
    assert StretchLen(cs) == |cs|;
  }

  /** A stretch, a marker and whatever follows: the stretch's segment, the marker's item, then the items of the rest. */
  lemma InnerContentAfterMarker(a: seq<Child>, m: Child, b: seq<Child>)
    requires forall k :: 0 <= k < |a| ==> !IsMarker(a[k])
    requires IsMarker(m)
    ensures InnerContent(a + [m] + b) == Segment(a) + [MarkerItem(m)] + InnerContent(b)
  {
    var s := a + [m] + b;
    StretchLenAt(s, |a|);
    assert s[..|a|] == a;
    assert s[|a| + 1..] == b;
  }
  /** A lone marker yields its own item and nothing else. */
  lemma InnerContentMarker(m: Child)
    requires IsMarker(m)
    ensures InnerContent([m]) == [MarkerItem(m)]
  {
    assert StretchLen([m]) == 0;
    assert [m][..0] == [] && [m][1..] == [];
    assert !HasTextLike([]);
  }

  /** StretchLen stops at the first marker. */
  lemma {:induction false} StretchLenAt(cs: seq<Child>, k: nat)
    requires k < |cs| && IsMarker(cs[k]) && forall j :: 0 <= j < k ==> !IsMarker(cs[j])
    ensures StretchLen(cs) == k
  {
    if k > 0 {
      StretchLenAt(cs[1..], k - 1);
    }
  }

  /** The string items, concatenated. */
  function Strings(items: seq<Item>): string
  {
    if items == [] then ""
    else (if items[0].Str? then items[0].s else "") + Strings(items[1..])
  }

  lemma {:induction false} StringsConcat(a: seq<Item>, b: seq<Item>)
    ensures Strings(a + b) == Strings(a) + Strings(b)
  {
    if a == [] {
      assert a + b == b;
    } else {
      assert (a + b)[1..] == a[1..] + b;
      StringsConcat(a[1..], b);
    }
  }

  /** The text of the string items is the text of the run: nothing is lost or duplicated. */
  lemma {:induction false} InnerContentText(cs: seq<Child>)
    ensures Strings(InnerContent(cs)) == Text(cs)
    decreases |cs|
  {
    var k := StretchLen(cs);
    var seg := cs[..k];
    SegmentParts(seg);
    if k == |cs| {
      assert seg == cs;
    } else {
      var m, rest := cs[k], cs[k + 1..];
      assert cs == seg + [m] + rest;
      InnerContentText(rest);
      MarkerParts(m);
      StringsConcat(Segment(seg) + [MarkerItem(m)], InnerContent(rest));
      StringsConcat(Segment(seg), [MarkerItem(m)]);
      TextConcat(seg + [m], rest);
      TextConcat(seg, [m]);
    }
  }

  /** A segment's string is the stretch's text, and it holds no marker item. */
  lemma SegmentParts(seg: seq<Child>)
    requires forall j :: 0 <= j < |seg| ==> !IsMarker(seg[j])
    ensures Strings(Segment(seg)) == Text(seg)
    ensures NonStrings(Segment(seg)) == [] && Markers(seg) == []
  {
    if HasTextLike(seg) {
      assert Segment(seg)[1..] == [];
    }
    MarkersNone(seg);
  }

  /** A marker adds no text and yields its own item. */
  lemma MarkerParts(m: Child)
    requires IsMarker(m)
    ensures Strings([MarkerItem(m)]) == "" && Text([m]) == ""
    ensures NonStrings([MarkerItem(m)]) == [MarkerItem(m)] && Markers([m]) == [MarkerItem(m)]
  {
    assert [MarkerItem(m)][1..] == [];
    assert [m][1..] == [];
  }

  /** The marker children, as the items they yield, in order. */
  function Markers(cs: seq<Child>): seq<Item>
  {
    if cs == [] then []
    else (if IsMarker(cs[0]) then [MarkerItem(cs[0])] else []) + Markers(cs[1..])
  }

  /** The items that are not strings. */
  function NonStrings(items: seq<Item>): seq<Item>
  {
    if items == [] then []
    else (if items[0].Str? then [] else [items[0]]) + NonStrings(items[1..])
  }

  lemma {:induction false} MarkersConcat(a: seq<Child>, b: seq<Child>)
    ensures Markers(a + b) == Markers(a) + Markers(b)
  {
    if a == [] {
      assert a + b == b;
    } else {
      assert (a + b)[0] == a[0] && (a + b)[1..] == a[1..] + b;
      MarkersConcat(a[1..], b);
    }
  }

  lemma {:induction false} NonStringsConcat(a: seq<Item>, b: seq<Item>)
    ensures NonStrings(a + b) == NonStrings(a) + NonStrings(b)
  {
    if a == [] {
      assert a + b == b;
    } else {
      assert (a + b)[1..] == a[1..] + b;
      NonStringsConcat(a[1..], b);
    }
  }

  lemma {:induction false} MarkersNone(cs: seq<Child>)
    requires forall k :: 0 <= k < |cs| ==> !IsMarker(cs[k])
    ensures Markers(cs) == []
  {
    if cs != [] {
      MarkersNone(cs[1..]);
    }
  }

  /** Every rendered page break and every drawing yields its own item, in document order, and nothing else is a non-string item. */
  lemma {:induction false} InnerContentMarkers(cs: seq<Child>)
    ensures NonStrings(InnerContent(cs)) == Markers(cs)
    decreases |cs|
  {
    var k := StretchLen(cs);
    var seg := cs[..k];
    SegmentParts(seg);
    if k == |cs| {
      assert seg == cs;
    } else {
      var m, rest := cs[k], cs[k + 1..];
      assert cs == seg + [m] + rest;
      InnerContentMarkers(rest);
      MarkerParts(m);
      NonStringsConcat(Segment(seg) + [MarkerItem(m)], InnerContent(rest));
      NonStringsConcat(Segment(seg), [MarkerItem(m)]);
      MarkersConcat(seg + [m], rest);
      MarkersConcat(seg, [m]);
    }
  }

  /** Two string items are never adjacent: a maximal text stretch is never split. */
  lemma {:induction false} InnerContentNoAdjacentStrings(cs: seq<Child>)
    ensures forall i :: 0 <= i < |InnerContent(cs)| - 1 ==>
              !(InnerContent(cs)[i].Str? && InnerContent(cs)[i + 1].Str?)
    decreases |cs|
  {
    var k := StretchLen(cs);
    if k < |cs| {
      var rest := cs[k + 1..];
      InnerContentNoAdjacentStrings(rest);
      var head := Segment(cs[..k]) + [MarkerItem(cs[k])];
      var items := head + InnerContent(rest);
      forall i | 0 <= i < |items| - 1
        ensures !(items[i].Str? && items[i + 1].Str?)
      {
        if i + 1 < |head| {
          assert items[i + 1] == MarkerItem(cs[k]);
        } else if i + 1 == |head| {
          assert items[i] == MarkerItem(cs[k]);
        } else {
          assert items[i] == InnerContent(rest)[i - |head|];
          assert items[i + 1] == InnerContent(rest)[i + 1 - |head|];
        }
      }
    }
  }

  /** A run with no text-like child and no marker has no inner content. */
  lemma InnerContentEmpty(cs: seq<Child>)
    requires forall k :: 0 <= k < |cs| ==> !IsTextLike(cs[k]) && !IsMarker(cs[k])
    ensures InnerContent(cs) == []
  {
    InnerContentNoMarker(cs);
  }

  // ----- the single forward pass that yields the inner content -----

  /** What flushing the text accumulator yields: one string when something was pushed, nothing otherwise. */
  function Pop(pending: bool, acc: string): seq<Item>
  {
    if pending then [Str(acc)] else []
  }

  /**
   The items the accumulator pass yields from `cs` when it has already pushed
   text (`pending`) amounting to `acc`: a text-like child is pushed, a marker
   flushes the accumulator and is yielded, any other child is skipped, and the
   accumulator is flushed at the end.
   */
  function Scan(pending: bool, acc: string, cs: seq<Child>): seq<Item>
    decreases |cs|
  {
    if cs == [] then Pop(pending, acc)
    else if IsMarker(cs[0]) then Pop(pending, acc) + [MarkerItem(cs[0])] + Scan(false, "", cs[1..])
    else if IsTextLike(cs[0]) then Scan(true, acc + ChildText(cs[0]), cs[1..])
    else Scan(pending, acc, cs[1..])
  }

  /** Passing over a stretch without markers only pushes its text. */
  lemma {:induction false} ScanStretch(pending: bool, acc: string, seg: seq<Child>, tail: seq<Child>)
    requires forall k :: 0 <= k < |seg| ==> !IsMarker(seg[k])
    ensures Scan(pending, acc, seg + tail) == Scan(pending || HasTextLike(seg), acc + Text(seg), tail)
    decreases |seg|
  {
    if seg == [] {
      assert seg + tail == tail;
      assert !HasTextLike(seg);
      assert acc + Text(seg) == acc;
    } else {
      var c, rest := seg[0], seg[1..];
      assert (seg + tail)[0] == c && (seg + tail)[1..] == rest + tail;
      ScanStretch(pending || IsTextLike(c), acc + ChildText(c), rest, tail);
      HasTextLikeCons(seg);
      assert acc + ChildText(c) + Text(rest) == acc + Text(seg);
      if !IsTextLike(c) {
        SkippedNoText(c);
        assert acc + ChildText(c) == acc;
      }
    }
  }

  lemma HasTextLikeCons(seg: seq<Child>)
    requires seg != []
    ensures HasTextLike(seg) <==> IsTextLike(seg[0]) || HasTextLike(seg[1..])
  {
    var rest := seg[1..];
    if HasTextLike(rest) {
      var k :| 0 <= k < |rest| && IsTextLike(rest[k]);
      assert seg[k + 1] == rest[k];
    }
    if HasTextLike(seg) && !IsTextLike(seg[0]) {
      var k :| 0 <= k < |seg| && IsTextLike(seg[k]);
      assert rest[k - 1] == seg[k];
    }
  }

  /** A child that is neither text-like nor a marker is the properties block and adds no text. */
  lemma SkippedNoText(c: Child)
    requires !IsTextLike(c) && !IsMarker(c)
    ensures ChildText(c) == ""
  {
    assert c.RPr?;
  }

  /** The accumulator pass yields exactly the inner content: one string per stretch with text, one item per marker. */
  lemma {:induction false} ScanIsInnerContent(cs: seq<Child>)
    ensures Scan(false, "", cs) == InnerContent(cs)
    decreases |cs|
  {
    var k := StretchLen(cs);
    var seg := cs[..k];
    if k == |cs| {
      assert seg == cs && cs == seg + [];
      ScanStretch(false, "", seg, []);
      assert "" + Text(seg) == Text(seg);
    } else {
      var rest := cs[k + 1..];
      assert cs == seg + ([cs[k]] + rest);
      ScanStretch(false, "", seg, [cs[k]] + rest);
      assert "" + Text(seg) == Text(seg);
      assert ([cs[k]] + rest)[0] == cs[k] && ([cs[k]] + rest)[1..] == rest;
      ScanIsInnerContent(rest);
    }
  }
}
