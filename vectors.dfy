/**
 The concrete cases of the run's unit tests, stated over the model: each lemma
 fixes the children of a `w:r` before an operation and what the operation reads
 or writes.
 */
module TestVectors {
  import opened Wrappers
  import opened RunProperties
  import opened RunContent
  import opened TriState
  import opened Underline
  import opened TextSplit

  /** Flags read from `w:rPr`: absent is None, bare or "on"/"1" is True, "off"/"0" is False. */
  lemma BoolPropGetCases()
    ensures GetTri(PropsOf([RPr([])]), B) == Ok(Inherit)
    ensures GetTri(PropsOf([RPr([Prop(B, None)])]), B) == Ok(True)
    ensures GetTri(PropsOf([RPr([Prop(B, Some("on"))])]), B) == Ok(True)
  {
    BoolPropGetValueCases();
  }

  lemma BoolPropGetValueCases()
    ensures GetTri(PropsOf([RPr([Prop(B, Some("off"))])]), B) == Ok(False)
    ensures GetTri(PropsOf([RPr([Prop(B, Some("1"))])]), B) == Ok(True)
    ensures GetTri(PropsOf([RPr([Prop(I, Some("0"))])]), I) == Ok(False)
  {
  }

  /** Flags written through the run: the block is created even for None, True is bare, False is "0". */
  lemma BoolPropSetCases()
    ensures WithProps([], SetTri(PropsOf([]), B, True)) == [RPr([Prop(B, None)])]
    ensures WithProps([], SetTri(PropsOf([]), B, False)) == [RPr([Prop(B, Some("0"))])]
    ensures WithProps([], SetTri(PropsOf([]), I, Inherit)) == [RPr([])]
  {
    assert PropsOf([]) == [];
    assert SetTri([], B, True) == [Prop(B, None)] by {
      InsertEmpty(Prop(B, None));
    }
    assert SetTri([], B, False) == [Prop(B, Some("0"))] by {
      InsertEmpty(Prop(B, Some("0")));
    }
    assert SetTri([], I, Inherit) == [];
    WithPropsBare([Prop(B, None)]);
    WithPropsBare([Prop(B, Some("0"))]);
    WithPropsBare([]);
  }

  /** On a run without children, setting properties creates the `w:rPr` block alone. */
  lemma WithPropsBare(props: seq<Prop>)
    ensures WithProps([], props) == [RPr(props)]
  {
    assert RPrIndex([]) == None;
  }

  /** Flags rewritten over a bare element, and False written over "0". */
  lemma BoolPropDefaultCases()
    ensures SetTri([Prop(B, None)], B, True) == [Prop(B, None)]
    ensures SetTri([Prop(B, None)], B, False) == [Prop(B, Some("0"))]
    ensures SetTri([Prop(I, None)], I, Inherit) == []
    ensures SetTri([Prop(I, Some("0"))], I, False) == [Prop(I, Some("0"))]
  {
  }

  /** Flags rewritten over an existing value. */
  lemma BoolPropResetCases()
    ensures SetTri([Prop(B, Some("on"))], B, True) == [Prop(B, None)]
    ensures SetTri([Prop(B, Some("1"))], B, False) == [Prop(B, Some("0"))]
    ensures SetTri([Prop(B, Some("1"))], B, Inherit) == []
    ensures SetTri([Prop(I, Some("false"))], I, True) == [Prop(I, None)]
    ensures SetTri([Prop(I, Some("off"))], I, Inherit) == []
  {
  }

  /** The underline read from `w:u`: absent or bare is None, "single" True, "none" False, others their member. */
  lemma UnderlineGetCases()
    ensures ReadUnderline([]) == Ok(NotSet)
    ensures ReadUnderline([Prop(U, None)]) == Ok(NotSet)
    ensures ReadUnderline([Prop(U, Some("single"))]) == Ok(Underlined)
    ensures ReadUnderline([Prop(U, Some("none"))]) == Ok(NotUnderlined)
    ensures ReadUnderline([Prop(U, Some("double"))]) == Ok(Styled(Double))
    ensures ReadUnderline([Prop(U, Some("wave"))]) == Ok(Styled(Wavy))
  {
  }

  /** True is written as `single`. */
  lemma UnderlineSetCases()
    ensures WriteUnderline([], Resolve(BoolValue(true)).value) == [Prop(U, Some("single"))]
  {
    assert Resolve(BoolValue(true)) == Ok(Some(Single));
    WriteSole([], Single, "single");
  }

  /** False is written as `none`. */
  lemma UnderlineClearCase()
    ensures WriteUnderline([], Resolve(BoolValue(false)).value) == [Prop(U, Some("none"))]
  {
    assert Resolve(BoolValue(false)) == Ok(Some(NoUnderline));
    WriteSole([], NoUnderline, "none");
  }

  /** None removes `w:u`. */
  lemma UnderlineRemoveCase()
    ensures WriteUnderline([Prop(U, Some("single"))], Resolve(NoneValue).value) == []
  {
    assert Remove([Prop(U, Some("single"))], U) == [];
  }

  /** A member is written as its literal on a run without properties. */
  lemma UnderlineSetMemberCases()
    ensures WriteUnderline([], Resolve(EnumValue(Thick)).value) == [Prop(U, Some("thick"))]
  {
    WriteSole([], Thick, "thick");
  }

  /** A member replaces an earlier `w:u`. */
  lemma UnderlineReplaceCase()
    ensures WriteUnderline([Prop(U, Some("single"))], Resolve(EnumValue(Dotted)).value) == [Prop(U, Some("dotted"))]
  {
    WriteSole([Prop(U, Some("single"))], Dotted, "dotted");
  }

  /** Into a block holding nothing but `w:u`, a member is written as the one element with its literal. */
  lemma WriteSole(props: seq<Prop>, m: WdUnderline, literal: string)
    requires forall k :: 0 <= k < |props| ==> props[k].tag == U
    requires XmlValue(m) == Some(literal)
    ensures WriteUnderline(props, Some(m)) == [Prop(U, Some(literal))]
  {
    if props != [] {
      WriteSole(props[1..], m, literal);
    } else {
      InsertEmpty(Prop(U, Some(literal)));
    }
  }

  /** Strings, and integers that are not WD_UNDERLINE codes, are refused. */
  lemma UnderlineRejectCases()
    ensures Resolve(StrValue("foobar")).Err? && Resolve(IntValue(42)).Err? && Resolve(StrValue("single")).Err?
  {
  }

  /** Whether a run holds a rendered page break. */
  lemma PageBreakCases()
    ensures !ContainsPageBreak([])
    ensures !ContainsPageBreak([T("foobar", false)])
    ensures ContainsPageBreak([T("abc", false), LastRenderedPageBreak, T("def", false)])
    ensures ContainsPageBreak([LastRenderedPageBreak, LastRenderedPageBreak])
  {
  }

  /** The inner-content items of the four runs of the iteration test. */
  lemma InnerContentCases()
    ensures InnerContent([]) == []
    ensures InnerContent([T("foo", false), Cr, T("bar", false)]) == [Str("foo\nbar")]
    ensures InnerContent([T("abc", false), Br(TextWrapping, None), LastRenderedPageBreak, NoBreakHyphen, T("def", false)])
            == [Str("abc\n"), RenderedPageBreak, Str("def")]
    ensures InnerContent([T("abc", false), LastRenderedPageBreak, Drawing(0)])
            == [Str("abc"), RenderedPageBreak, DrawingItem(0)]
  {
    ContiguousTextCase();
    PageBreakItemsCase(Br(TextWrapping, None), "abc\n");
    DrawingItemsCase();
  }

  lemma ContiguousTextCase()
    ensures InnerContent([T("foo", false), Cr, T("bar", false)]) == [Str("foo\nbar")]
  {
    var cs := [T("foo", false), Cr, T("bar", false)];
    InnerContentNoMarker(cs);
    assert IsTextLike(cs[0]);
    assert Text(cs) == "foo\nbar" by {
      assert Text([T("bar", false)]) == "bar";
      assert Text([Cr, T("bar", false)]) == "\nbar";
    }
  }

  /** A text stretch ending in a break, a rendered page break, and a stretch starting with a no-break hyphen. */
  lemma PageBreakItemsCase(br: Child, first: string)
    requires br == Br(TextWrapping, None) || br == Br(Page, None)
    requires first == "abc" + ChildText(br)
    ensures InnerContent([T("abc", false), br, LastRenderedPageBreak, NoBreakHyphen, T("def", false)])
            == [Str(first), RenderedPageBreak, Str("def")]
  {
    var a := [T("abc", false), br];
    var b := [NoBreakHyphen, T("def", false)];
    SegmentPair(T("abc", false), br);
    HyphenDefCase();
    InnerContentAfterMarker(a, LastRenderedPageBreak, b);
    assert a + [LastRenderedPageBreak] + b
        == [T("abc", false), br, LastRenderedPageBreak, NoBreakHyphen, T("def", false)];
  }

  /** A no-break hyphen followed by "def" reads as "def". */
  lemma HyphenDefCase()
    ensures InnerContent([NoBreakHyphen, T("def", false)]) == [Str("def")]
  {
    SegmentPair(NoBreakHyphen, T("def", false));
    assert "" + "def" == "def";
    InnerContentNoMarker([NoBreakHyphen, T("def", false)]);
  }

  lemma DrawingItemsCase()
    ensures InnerContent([T("abc", false), LastRenderedPageBreak, Drawing(0)])
            == [Str("abc"), RenderedPageBreak, DrawingItem(0)]
  {
    var c := [T("abc", false)];
    SegmentWord("abc");
    InnerContentMarker(Drawing(0));
    InnerContentAfterMarker(c, LastRenderedPageBreak, [Drawing(0)]);
    assert c + [LastRenderedPageBreak] + [Drawing(0)] == [T("abc", false), LastRenderedPageBreak, Drawing(0)];
  }

  /** Two children starting with a text-like one are one string item. */
  lemma SegmentPair(x: Child, y: Child)
    requires IsTextLike(x)
    ensures Segment([x, y]) == [Str(ChildText(x) + ChildText(y))]
  {
    assert [x, y][0] == x && [x, y][1..] == [y] && [y][1..] == [];
    assert HasTextLike([x, y]);
    assert Text([y]) == ChildText(y) by {
      assert ChildText(y) + "" == ChildText(y);
    }
  }

  /** A lone `w:t` is one string item. */
  lemma SegmentWord(w: string)
    ensures Segment([T(w, false)]) == [Str(w)]
  {
    assert IsTextLike([T(w, false)][0]);
    assert HasTextLike([T(w, false)]);
    assert [T(w, false)][1..] == [];
    assert w + "" == w;
  }

  /** The end-to-end run: a page-type break and a no-break hyphen add no characters. */
  lemma EndToEndCase()
    ensures InnerContent([T("abc", false), Br(Page, None), LastRenderedPageBreak, NoBreakHyphen, T("def", false)])
            == [Str("abc"), RenderedPageBreak, Str("def")]
    ensures Text([T("abc", false), Br(Page, None), LastRenderedPageBreak, NoBreakHyphen, T("def", false)]) == "abcdef"
    ensures ContainsPageBreak([T("abc", false), Br(Page, None), LastRenderedPageBreak, NoBreakHyphen, T("def", false)])
  {
    PageBreakItemsCase(Br(Page, None), "abc");
    var cs := [T("abc", false), Br(Page, None), LastRenderedPageBreak, NoBreakHyphen, T("def", false)];
    assert cs[2].LastRenderedPageBreak?;
    EndToEndText();
  }

  lemma EndToEndText()
    ensures Text([T("abc", false), Br(Page, None), LastRenderedPageBreak, NoBreakHyphen, T("def", false)]) == "abcdef"
  {
    var cs := [T("abc", false), Br(Page, None), LastRenderedPageBreak, NoBreakHyphen, T("def", false)];
    assert Text(cs[4..]) == "def";
    assert Text(cs[3..]) == "def";
    assert Text(cs[2..]) == "def";
    assert Text(cs[1..]) == "def";
  }

  /** Clearing keeps the properties block, with its contents, and nothing else. */
  lemma ClearCases()
    ensures RPrOnly([]) == [] && RPrOnly([T("foo", false)]) == [] && RPrOnly([Br(TextWrapping, None)]) == []
    ensures RPrOnly([RPr([])]) == [RPr([])] && RPrOnly([RPr([]), T("foo", false)]) == [RPr([])]
    ensures RPrOnly([RPr([Prop(B, None), Prop(I, None)]), T("foo", false), Cr, T("bar", false)])
            == [RPr([Prop(B, None), Prop(I, None)])]
  {
    assert [T("foo", false), Cr, T("bar", false)][1..] == [Cr, T("bar", false)];
  }

  /** The text read from four runs. */
  lemma TextCases()
    ensures Text([]) == ""
    ensures Text([T("foobar", false)]) == "foobar"
    ensures Text([T("abc", false), Tab, T("def", false), Cr]) == "abc\tdef\n"
    ensures Text([Br(Page, None), T("abc", false), T("def", false), Tab]) == "abcdef\t"
  {
  }

  /** The `w:t` children `add_text` appends. */
  lemma AddTextCases()
    ensures NewT("foo") == T("foo", false)
    ensures NewT("fo ") == T("fo ", true)
    ensures NewT("f o") == T("f o", false)
  {
    assert TrimRight("fo ") == TrimRight("fo");
  }

  /** The children the text setter writes for the four strings of its test. */
  lemma TextSetCases()
    ensures TextContent("abc  def") == [T("abc  def", false)]
    ensures TextContent("abc\tdef") == [T("abc", false), Tab, T("def", false)]
    ensures TextContent("abc\ndef") == [T("abc", false), Br(TextWrapping, None), T("def", false)]
    ensures TextContent("abc\rdef") == [T("abc", false), Br(TextWrapping, None), T("def", false)]
  {
    InteriorSpacesCase();
    SpecialCharCase("abc\tdef");
    SpecialCharCase("abc\ndef");
    SpecialCharCase("abc\rdef");
  }

  lemma SpecialCharCase(s: string)
    requires s == "abc\tdef" || s == "abc\ndef" || s == "abc\rdef"
    ensures TextContent(s) == [T("abc", false), SpecialChild(s[3]), T("def", false)]
  {
    assert s == "abc" + [s[3]] + "def";
    SpecialStepCase(s[3]);
  }

  lemma InteriorSpacesCase()
    ensures TextContent("abc  def") == [T("abc  def", false)]
  {
    PlainAll("abc  def");
    TextContentPlain("abc  def");
    NeedsPreserveIff("abc  def");
  }

  /** "abc", a special character and "def". */
  lemma SpecialStepCase(c: char)
    requires IsSpecial(c)
    ensures TextContent("abc" + [c] + "def") == [T("abc", false), SpecialChild(c), T("def", false)]
  {
    WordCase("abc");
    WordCase("def");
    TextContentPlainThen("abc", c, "def");
    TextContentPlain("def");
  }

  lemma WordCase(w: string)
    requires w == "abc" || w == "def"
    ensures Plain(w) && Flushed(w) == [T(w, false)]
  {
    PlainAll(w);
    NeedsPreserveIff(w);
  }
}
