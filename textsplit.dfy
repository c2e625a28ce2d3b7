/**
 How the run's text is written: a string is cut at tab, newline and
 carriage-return characters into `w:t`, `w:tab` and `w:br` children, and a
 `w:t` is marked `xml:space="preserve"` when stripping would change it.
 */
module TextSplit {
  import opened Wrappers
  import opened RunContent

  /** Python's `str.isspace` for one character. */
  predicate IsSpace(c: char)
  {
    var n := c as int;
    (9 <= n <= 13) || (28 <= n <= 32) || n == 0x85 || n == 0xA0 || n == 0x1680
    || (0x2000 <= n <= 0x200A) || n == 0x2028 || n == 0x2029 || n == 0x202F
    || n == 0x205F || n == 0x3000
  }

  function TrimLeft(s: string): (r: string)
    ensures |r| <= |s|
  {
    if s != [] && IsSpace(s[0]) then TrimLeft(s[1..]) else s
  }

  function TrimRight(s: string): (r: string)
    ensures |r| <= |s|
  {
    if s != [] && IsSpace(s[|s| - 1]) then TrimRight(s[..|s| - 1]) else s
  }

  /** Python's `str.strip()` with no argument. */
  function Strip(s: string): string
  {
    TrimRight(TrimLeft(s))
  }

  /** `len(text.strip()) < len(text)`: the test `add_t` uses to set `xml:space`. */
  predicate NeedsPreserve(s: string)
  {
    |Strip(s)| < |s|
  }

  /** Whitespace must be preserved exactly when the text starts or ends with it; interior whitespace does not count. */
  lemma NeedsPreserveIff(s: string)
    ensures NeedsPreserve(s) <==> |s| > 0 && (IsSpace(s[0]) || IsSpace(s[|s| - 1]))
  {
    if |s| > 0 && !IsSpace(s[0]) {
      assert TrimLeft(s) == s;
    }
  }

  /** The `w:t` child `add_t` appends for a string. */
  function NewT(s: string): (r: Child)
    ensures r.T? && r.text == s
    ensures r.preserve <==> |s| > 0 && (IsSpace(s[0]) || IsSpace(s[|s| - 1]))
  {
    NeedsPreserveIff(s);
    T(s, NeedsPreserve(s))
  }

  /** The characters the text setter turns into elements of their own. */
  predicate IsSpecial(c: char)
  {
    c == '\t' || c == '\n' || c == '\r'
  }

  /** A stretch holding no special character. */
  predicate Plain(w: string)
    decreases |w|
  {
    w == [] || (!IsSpecial(w[0]) && Plain(w[1..]))
  }

  lemma {:induction false} PlainAll(w: string)
    ensures Plain(w) <==> forall j :: 0 <= j < |w| ==> !IsSpecial(w[j])
    decreases |w|
  {
    if w != [] {
      PlainAll(w[1..]);
      assert forall j :: 1 <= j < |w| ==> w[j] == w[1..][j - 1];
    }
  }

  lemma PlainSnoc(w: string, c: char)
    requires Plain(w) && !IsSpecial(c)
    ensures Plain(w + [c])
  {
    PlainAll(w);
    PlainAll(w + [c]);
  }

  /** The child a special character becomes: a tab, or a plain line break. */
  function SpecialChild(c: char): Child
    requires IsSpecial(c)
  {
    if c == '\t' then Tab else BreakChild(Line)
  }

  /** The `w:t` a pending stretch of ordinary characters is flushed as, if any. */
  function Flushed(w: string): seq<Child>
  {
    if w == "" then [] else [NewT(w)]
  }

  /** Index of the first special character, or the length. */
  function FirstSpecial(s: string): (k: nat)
    ensures k <= |s|
    ensures forall j :: 0 <= j < k ==> !IsSpecial(s[j])
    ensures k < |s| ==> IsSpecial(s[k])
  {
    if s == [] || IsSpecial(s[0]) then 0 else 1 + FirstSpecial(s[1..])
  }

  /**
   The children the text setter appends for `s`: each maximal stretch of
   ordinary characters becomes one `w:t`, each special character its own child.
   */
  function TextContent(s: string): (r: seq<Child>)
    ensures forall k :: 0 <= k < |r| ==> r[k].T? || r[k] == Tab || r[k] == BreakChild(Line)
    decreases |s|
  {
    var k := FirstSpecial(s);
    if k == |s| then Flushed(s)
    else Flushed(s[..k]) + [SpecialChild(s[k])] + TextContent(s[k + 1..])
  }

  /** `s` with every carriage return read back as a newline. */
  function Normalize(s: string): (r: string)
    ensures |r| == |s|
  {
    if s == [] then [] else [if s[0] == '\r' then '\n' else s[0]] + Normalize(s[1..])
  }

  lemma FirstSpecialAt(s: string, k: nat)
    requires k < |s| && IsSpecial(s[k]) && forall j :: 0 <= j < k ==> !IsSpecial(s[j])
    ensures FirstSpecial(s) == k
  {
    if k > 0 {
      FirstSpecialAt(s[1..], k - 1);
    }
  }

  /** A stretch without specials is flushed as one `w:t`. */
  lemma TextContentPlain(w: string)
    requires Plain(w)
    ensures TextContent(w) == Flushed(w)
  {
    PlainAll(w);
    assert FirstSpecial(w) == |w|;
  }

  /** A stretch, a special character and whatever follows: the stretch's `w:t`, the character's child, then the rest. */
  lemma TextContentPlainThen(w: string, c: char, rest: string)
    requires Plain(w)
    requires IsSpecial(c)
    ensures TextContent(w + [c] + rest) == Flushed(w) + [SpecialChild(c)] + TextContent(rest)
  {
    PlainAll(w);
    var s := w + [c] + rest;
    FirstSpecialAt(s, |w|);
    TextContentUnfold(s, |w|);
    assert s[..|w|] == w;
    assert s[|w|] == c;
    assert s[|w| + 1..] == rest;
  }

  /**
   The children the character-by-character appender writes for `rest` when it
   has already buffered `buf`: an ordinary character joins the buffer, a tab or
   line break flushes it and adds its own child, and the end flushes it.
   */
  function Appender(buf: string, rest: string): seq<Child>
    decreases |rest|
  {
    if rest == [] then Flushed(buf)
    else if IsSpecial(rest[0]) then Flushed(buf) + [SpecialChild(rest[0])] + Appender("", rest[1..])
    else Appender(buf + [rest[0]], rest[1..])
  }

  /** The appender writes exactly the split of the buffered and remaining text into stretches and special characters. */
  lemma {:induction false} AppenderIsTextContent(buf: string, rest: string)
    requires Plain(buf)
    ensures Appender(buf, rest) == TextContent(buf + rest)
    decreases |rest|
  {
    if rest == [] {
      assert buf + rest == buf;
      TextContentPlain(buf);
    } else if IsSpecial(rest[0]) {
      assert Plain("");
      AppenderIsTextContent("", rest[1..]);
      SpecialStep(buf, rest, 0);
      assert rest[0..] == rest;
    } else {
      PlainSnoc(buf, rest[0]);
      AppenderIsTextContent(buf + [rest[0]], rest[1..]);
      PlainStep(buf, rest, 0);
      assert rest[0..] == rest;
    }
  }

  lemma SpecialStep(buf: string, s: string, i: nat)
    requires i < |s| && Plain(buf) && IsSpecial(s[i])
    ensures TextContent(buf + s[i..]) == Flushed(buf) + [SpecialChild(s[i])] + TextContent("" + s[i + 1..])
  {
    assert buf + s[i..] == buf + [s[i]] + s[i + 1..];
    assert "" + s[i + 1..] == s[i + 1..];
    TextContentPlainThen(buf, s[i], s[i + 1..]);
  }

  lemma PlainStep(buf: string, s: string, i: nat)
    requires i < |s|
    ensures TextContent(buf + s[i..]) == TextContent((buf + [s[i]]) + s[i + 1..])
  {
    assert buf + s[i..] == (buf + [s[i]]) + s[i + 1..];
  }

  lemma {:induction false} NormalizeConcat(a: string, b: string)
    ensures Normalize(a + b) == Normalize(a) + Normalize(b)
  {
    if a == [] {
      assert a + b == b;
    } else {
      assert (a + b)[1..] == a[1..] + b;
      NormalizeConcat(a[1..], b);
    }
  }

  lemma {:induction false} NormalizePlain(w: string)
    requires forall j :: 0 <= j < |w| ==> !IsSpecial(w[j])
    ensures Normalize(w) == w
  {
    if w != [] {
      NormalizePlain(w[1..]);
      assert w == [w[0]] + w[1..];
    }
  }

  /** A flushed stretch reads back as itself. */
  lemma TextFlushed(w: string)
    ensures Text(Flushed(w)) == w
  {
    if w != "" {
      assert Flushed(w)[1..] == [];
    }
  }

  /** A special character's child reads back as the character, a carriage return as a newline. */
  lemma TextSpecial(c: char)
    requires IsSpecial(c)
    ensures Text([SpecialChild(c)]) == Normalize([c])
  {
    assert [SpecialChild(c)][1..] == [];
    assert [c][1..] == [];
  }

  /** TextContent of a string with a special character, unfolded once. */
  lemma TextContentUnfold(s: string, k: nat)
    requires k == FirstSpecial(s) < |s|
    ensures s == s[..k] + [s[k]] + s[k + 1..]
    ensures TextContent(s) == Flushed(s[..k]) + [SpecialChild(s[k])] + TextContent(s[k + 1..])
  {
    SplitAt(s, k);
  }

  lemma SplitAt(s: string, k: nat)
    requires k < |s|
    ensures s == s[..k] + [s[k]] + s[k + 1..]
  {
    assert s == s[..k] + s[k..];
    assert s[k..] == [s[k]] + s[k + 1..];
  }

  /** Reading the text back after setting it gives the string written, with carriage returns read as newlines. */
  lemma {:induction false} TextRoundTrip(s: string)
    ensures Text(TextContent(s)) == Normalize(s)
    decreases |s|
  {
    var k := FirstSpecial(s);
    var w := s[..k];
    NormalizePlain(w);
    TextFlushed(w);
    if k == |s| {
      assert w == s;
    } else {
      var c := s[k];
      var rest := s[k + 1..];
      TextContentUnfold(s, k);
      TextRoundTrip(rest);
      TextSpecial(c);
      TextConcat(Flushed(w) + [SpecialChild(c)], TextContent(rest));
      TextConcat(Flushed(w), [SpecialChild(c)]);
      NormalizeConcat(w + [c], rest);
      NormalizeConcat(w, [c]);
    }
  }

  /** The shape of what the setter writes: every `w:t` is a non-empty stretch with no special character, marked preserve exactly as `add_t` marks it, and no two `w:t` are adjacent. */
  ghost predicate Canonical(cs: seq<Child>)
  {
    && (forall i :: 0 <= i < |cs| ==> cs[i].T? || cs[i] == Tab || cs[i] == BreakChild(Line))
    && (forall i :: 0 <= i < |cs| && cs[i].T? ==>
          cs[i].text != "" && cs[i] == NewT(cs[i].text)
          && forall j :: 0 <= j < |cs[i].text| ==> !IsSpecial(cs[i].text[j]))
    && (forall i :: 0 <= i < |cs| - 1 ==> !(cs[i].T? && cs[i + 1].T?))
  }

  /** A stretch of ordinary characters is flushed in the canonical shape. */
  lemma FlushedCanonical(w: string)
    requires forall j :: 0 <= j < |w| ==> !IsSpecial(w[j])
    ensures Canonical(Flushed(w))
  {
  }

  /** Canonical pieces join into a canonical sequence when the first ends with a special child. */
  lemma CanonicalJoin(a: seq<Child>, c: char, b: seq<Child>)
    requires Canonical(a) && Canonical(b) && IsSpecial(c)
    ensures Canonical(a + [SpecialChild(c)] + b)
  {
    var r := a + [SpecialChild(c)] + b;
    assert forall i :: 0 <= i < |a| ==> r[i] == a[i];
    assert r[|a|] == SpecialChild(c);
    assert forall i :: |a| < i < |r| ==> r[i] == b[i - |a| - 1];
    forall i | 0 <= i < |r| - 1
      ensures !(r[i].T? && r[i + 1].T?)
    {
      if i + 1 < |a| {
        assert r[i] == a[i] && r[i + 1] == a[i + 1];
      } else if i > |a| {
        assert r[i] == b[i - |a| - 1] && r[i + 1] == b[i - |a|];
      }
    }
  }

  /** The setter always writes the canonical shape. */
  lemma {:induction false} TextContentCanonical(s: string)
    ensures Canonical(TextContent(s))
    ensures s != "" ==> TextContent(s) != []
    decreases |s|
  {
    var k := FirstSpecial(s);
    FlushedCanonical(s[..k]);
    if k < |s| {
      TextContentCanonical(s[k + 1..]);
      CanonicalJoin(Flushed(s[..k]), s[k], TextContent(s[k + 1..]));
    } else {
      assert s[..k] == s;
    }
  }

  /** A canonical sequence holds no marker and, when not empty, only text-like children. */
  lemma TextContentInner(s: string)
    ensures InnerContent(TextContent(s)) == if s == "" then [] else [Str(Normalize(s))]
  {
    var cs := TextContent(s);
    TextContentCanonical(s);
    InnerContentNoMarker(cs);
    TextRoundTrip(s);
    if s != "" {
      assert IsTextLike(cs[0]);
    } else {
      assert cs == [];
    }
  }
}
