/**
 The `Run` object: a `w:r` element whose children are edited in place by the
 property setters and the content operations, and read through the views of
 `RunContent`, `TriState` and `Underline`.
 */
module RunModel {
  import opened Wrappers
  import opened RunProperties
  import opened RunContent
  import opened TriState
  import opened Underline
  import opened TextSplit

  class Run {
    /** The children of `w:r`, in document order. */
    var children: seq<Child>

    /** The properties block, if present, is the first child and the only one. */
    ghost predicate Valid()
      reads this
    {
      WellFormed(children)
    }

    constructor (cs: seq<Child>)
      requires WellFormed(cs)
      ensures Valid() && children == cs
    {
      children := cs;
    }

    // ----- reads -----

    /** The tri-state flag `t` (`Run.bold`, `Run.italic`, ...). */
    function Flag(t: RPrTag): (r: Result<Tri, Error>)
      reads this
      requires IsOnOff(t)
      ensures RPrIndex(children).None? ==> r == Ok(Inherit)
      ensures r == Ok(Inherit) <==> First(PropsOf(children), t).None?
    {
      GetTri(PropsOf(children), t)
    }

    /** `Run.underline`. */
    function UnderlineSetting(): (r: Result<UnderlineState, Error>)
      reads this
      ensures RPrIndex(children).None? ==> r == Ok(NotSet)
      ensures r == Ok(Underlined) <==> First(PropsOf(children), U) == Some(Prop(U, Some("single")))
    {
      ReadUnderline(PropsOf(children))
    }

    /** `Run.text`. */
    function RunText(): (r: string)
      reads this
      ensures r == Strings(InnerContent(children))
    {
      InnerContentText(children);
      Text(children)
    }

    /** `Run.contains_page_break`. */
    function HasPageBreak(): (r: bool)
      reads this
      ensures r <==> exists i :: 0 <= i < |children| && children[i].LastRenderedPageBreak?
    {
      ContainsPageBreak(children)
    }

    /**
     `Run.iter_inner_content`: one forward pass that pushes the text of
     text-like children into an accumulator and flushes it as one string
     whenever a rendered page break or a drawing is met, and at the end.
     */
    method IterInnerContent() returns (items: seq<Item>)
      ensures items == InnerContent(children)
      ensures Strings(items) == Text(children)
      ensures forall i :: 0 <= i < |items| - 1 ==> !(items[i].Str? && items[i + 1].Str?)
    {
      items := [];
      var pending, acc := false, "";
      var i := 0;
      while i < |children|
        invariant 0 <= i <= |children|
        invariant items + Scan(pending, acc, children[i..]) == Scan(false, "", children)
      {
        var c := children[i];
        assert children[i..][0] == c && children[i..][1..] == children[i + 1..];
        if IsMarker(c) {
          if pending {
            items := items + [Str(acc)];
          }
          items := items + [MarkerItem(c)];
          pending, acc := false, "";
        } else if IsTextLike(c) {
          pending, acc := true, acc + ChildText(c);
        }
        i := i + 1;
      }
      if pending {
        items := items + [Str(acc)];
      }
      ScanIsInnerContent(children);
      InnerContentText(children);
      InnerContentNoAdjacentStrings(children);
    }

    // ----- property setters -----

    /**
     Sets the tri-state flag `t`; the properties block is created as first child
     when missing, whatever the value.
     */
    method SetFlag(t: RPrTag, v: Tri)
      requires Valid() && IsOnOff(t)
      modifies this
      ensures Valid()
      ensures children == WithProps(old(children), SetTri(PropsOf(old(children)), t, v))
      ensures RPrIndex(children).Some?
      ensures Flag(t) == Ok(v)
      ensures forall u :: u != t ==> First(PropsOf(children), u) == First(PropsOf(old(children)), u)
      ensures Content(children) == Content(old(children))
      ensures Ordered(PropsOf(old(children))) ==> Ordered(PropsOf(children))
    {
      var props := SetTri(PropsOf(children), t, v);
      WithPropsSpec(children, props);
      if Ordered(PropsOf(children)) {
        SetTriOrdered(PropsOf(children), t, v);
      }
      GetAfterSet(PropsOf(children), t, v);
      forall u | u != t
        ensures First(props, u) == First(PropsOf(children), u)
      {
        SetTriOthers(PropsOf(children), t, v, u);
      }
      children := WithProps(children, props);
    }

    /**
     Assigns `Run.underline`. A value outside WD_UNDERLINE is reported and
     leaves the run as it was; otherwise the properties block is created when
     missing and its `w:u` replaced (None removes it).
     */
    method SetUnderline(v: UnderlineValue) returns (err: Option<Error>)
      requires Valid()
      modifies this
      ensures Valid()
      ensures err.Some? <==> Resolve(v).Err?
      ensures err.Some? ==> err.value == InvalidUnderline && children == old(children)
      ensures err.None? ==>
                children == WithProps(old(children), WriteUnderline(PropsOf(old(children)), Resolve(v).value))
      ensures err.None? ==> UnderlineSetting() == Ok(Reading(Resolve(v).value))
      ensures err.None? ==> forall u :: u != U ==> First(PropsOf(children), u) == First(PropsOf(old(children)), u)
      ensures Content(children) == Content(old(children))
      ensures Ordered(PropsOf(old(children))) ==> Ordered(PropsOf(children))
    {
      match Resolve(v)
      case Err(e) =>
        err := Some(e);
      case Ok(u) =>
        var props := WriteUnderline(PropsOf(children), u);
        WithPropsSpec(children, props);
        if Ordered(PropsOf(children)) {
          WriteUnderlineOrdered(PropsOf(children), u);
        }
        WriteReadUnderline(PropsOf(children), u);
        forall t | t != U
          ensures First(props, t) == First(PropsOf(children), t)
        {
          WriteUnderlineOthers(PropsOf(children), u, t);
        }
        children := WithProps(children, props);
        err := None;
    }

    // ----- content edits -----

    /** Removes every child except the properties block (`CT_R.clear_content`). */
    method ClearContent()
      requires Valid()
      modifies this
      ensures Valid()
      ensures children == RPrOnly(old(children))
      ensures PropsOf(children) == PropsOf(old(children))
      ensures Content(children) == [] && Text(children) == ""
    {
      var kept: seq<Child> := [];
      var i := 0;
      while i < |children|
        invariant children == old(children)
        invariant 0 <= i <= |children|
        invariant kept == RPrOnly(children[..i])
      {
        assert children[..i + 1] == children[..i] + [children[i]];
        RPrOnlyConcat(children[..i], [children[i]]);
        assert RPrOnly([children[i]]) == if children[i].RPr? then [children[i]] else [] by {
          assert [children[i]][1..] == [];
        }
        if children[i].RPr? {
          kept := kept + [children[i]];
        }
        i := i + 1;
      }
      assert children[..i] == children;
      RPrOnlySpec(children);
      children := kept;
    }

    /** `Run.clear`: removes the content, keeps the formatting, and returns the run itself. */
    method Clear() returns (r: Run)
      requires Valid()
      modifies this
      ensures r == this && Valid()
      ensures children == RPrOnly(old(children))
      ensures PropsOf(children) == PropsOf(old(children))
      ensures Content(children) == [] && Text(children) == ""
    {
      ClearContent();
      r := this;
    }

    /** `Run.add_text`: appends one `w:t`, marked to preserve whitespace when it starts or ends with space. */
    method AddText(s: string) returns (t: Child)
      modifies this
      ensures old(Valid()) ==> Valid()
      ensures t == T(s, NeedsPreserve(s))
      ensures children == old(children) + [t]
      ensures Text(children) == Text(old(children)) + s
    {
      t := NewT(s);
      TextConcat(children, [t]);
      assert [t][1..] == [];
      children := children + [t];
    }

    /** `Run.add_tab`. */
    method AddTab()
      modifies this
      ensures old(Valid()) ==> Valid()
      ensures children == old(children) + [Tab]
      ensures Text(children) == Text(old(children)) + "\t"
    {
      TextConcat(children, [Tab]);
      assert [Tab][1..] == [];
      children := children + [Tab];
    }

    /** `Run.add_break`: appends the `w:br` whose `w:type` and `w:clear` encode the kind. */
    method AddBreak(k: WdBreak)
      modifies this
      ensures old(Valid()) ==> Valid()
      ensures children == old(children) + [BreakChild(k)]
      ensures BreakKind(children[|children| - 1]) == Some(k)
    {
      BreakChildSpec(k);
      children := children + [BreakChild(k)];
    }

    /** `Run.add_picture`, reduced to appending the `w:drawing` that holds the new inline shape. */
    method AddPicture(inline: InlineId)
      modifies this
      ensures old(Valid()) ==> Valid()
      ensures children == old(children) + [Drawing(inline)]
      ensures HasPageBreak() == old(HasPageBreak())
    {
      var d := Drawing(inline);
      assert forall i :: 0 <= i < |children| ==> (children + [d])[i] == children[i];
      children := children + [d];
    }

    /** `Run.text = s`: removes all content, keeping the properties, then appends the children `s` is written as. */
    method SetText(s: string)
      requires Valid()
      modifies this
      ensures Valid()
      ensures children == RPrOnly(old(children)) + TextContent(s)
      ensures PropsOf(children) == PropsOf(old(children))
      ensures Text(children) == Normalize(s)
    {
      ClearContent();
      AppendText(s);
      TextContentCanonical(s);
      TextConcat(RPrOnly(old(children)), TextContent(s));
      TextRoundTrip(s);
      PropsOfAppend(RPrOnly(old(children)), TextContent(s));
    }

    /**
     Appends the characters of `s` one at a time (`_RunContentAppender`):
     ordinary characters are buffered, and the buffer is flushed as one `w:t`
     before each tab or line break and at the end.
     */
    method AppendText(s: string)
      requires Valid()
      modifies this
      ensures Valid()
      ensures children == old(children) + TextContent(s)
    {
      var buf := "";
      var i := 0;
      while i < |s|
        invariant 0 <= i <= |s|
        invariant children + Appender(buf, s[i..]) == old(children) + Appender("", s)
      {
        var c := s[i];
        assert s[i..][0] == c && s[i..][1..] == s[i + 1..];
        if IsSpecial(c) {
          FlushThen(buf, c);
          buf := "";
        } else {
          buf := buf + [c];
        }
        i := i + 1;
      }
      Flush(buf);
      assert Plain("") && "" + s == s;
      AppenderIsTextContent("", s);
      WellFormedAppend(old(children), TextContent(s));
    }

    /** Flushes the buffer, then appends a `w:tab` for a tab and a plain `w:br` for a newline or carriage return. */
    method FlushThen(buf: string, c: char)
      requires IsSpecial(c)
      modifies this
      ensures children == old(children) + (Flushed(buf) + [SpecialChild(c)])
    {
      Flush(buf);
      if c == '\t' {
        AddTab();
      } else {
        AddBreak(Line);
      }
    }

    /** Appends a pending stretch of ordinary characters as one `w:t`, if there is one. */
    method Flush(buf: string)
      modifies this
      ensures children == old(children) + Flushed(buf)
    {
      if buf != "" {
        var _ := AddText(buf);
      }
    }
  }
}
