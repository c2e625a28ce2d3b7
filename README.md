# The run content model of skelmis-docx

A `Run` is a `w:r` element of a WordprocessingML paragraph: an optional
properties block `w:rPr` followed by content children (`w:t`, `w:tab`,
`w:br`, `w:cr`, `w:lastRenderedPageBreak`, `w:noBreakHyphen`, `w:drawing`).
This project models what the run's API reads from and writes to those
children, and proves the properties its unit tests rely on:

- `rpr.dfy` (`RunProperties`): the properties block as a sequence of
  property elements kept in `CT_RPr` schema order. An element is read from
  the first one with its tag. A new element is inserted before the first
  successor tag found. Removal drops every element with that tag.
- `tristate.dfy` (`TriState`): the on/off flags (bold, italic, ...). Each
  reads as True, False or Inherit from its ST_OnOff `w:val`. Writing True
  leaves a bare element, False writes `"0"`, and Inherit removes the element.
- `underline.dfy` (`Underline`): the WD_UNDERLINE members with their XML
  literals and integer codes, the values the underline setter accepts, and
  how `w:u` reads and is written.
- `content.dfy` (`RunContent`): the children of the run. It defines the
  run's text, whether it holds a rendered page break, the six break kinds,
  and the inner-content items. The items are one string per maximal stretch
  of text, plus one item per rendered page break or drawing.
- `textsplit.dfy` (`TextSplit`): how a string becomes run content. Ordinary
  characters go to `w:t`, which is marked `xml:space="preserve"` when the
  string starts or ends with whitespace. A tab becomes `w:tab`. A newline or
  carriage return becomes a plain `w:br`.
- `run.dfy` (`RunModel`): the `Run` class. Its methods edit `children` in
  place, and its functions read through the views above. Inner-content
  iteration and the character appender are loops proved against the
  reference functions `Scan` and `Appender`.
- `vectors.dfy` (`TestVectors`): the concrete cases of the unit tests,
  stated over the model.

A well-formed run (`WellFormed`, the class's `Valid`) has at most one
`w:rPr`, and it is the first child.

## Model

| member | source | states |
|---|---|---|
| RunModel.Run.Flag | tests/text/test_run.py:27-29 | The `bold`/`italic` getter. A run without `w:rPr` reads Inherit (None), and a flag reads Inherit exactly when its element is absent. |
| RunModel.Run.UnderlineSetting | tests/text/test_run.py:93-95 | The `underline` getter. A run without `w:rPr` reads None, and it reads True exactly when the first `w:u` is `w:val="single"`. |
| RunModel.Run.RunText | tests/text/test_run.py:186-198 | The `text` getter. It equals the strings of the run's inner-content items joined in order. |
| RunModel.Run.HasPageBreak | tests/text/test_run.py:36-49 | The `contains_page_break` getter. It is true exactly when some child is a `w:lastRenderedPageBreak`. |
| TriState.GetTri | tests/text/test_run.py:242-255 | A flag reads as Inherit exactly when its element is absent. It reads True exactly for a bare element or `w:val` 1/true/on. It reads False exactly for 0/false/off. |
| TriState.DecodeOnOff | tests/text/test_run.py:242-250 | The ST_OnOff literals decode, and nothing else does. True is exactly the bare form or 1/true/on. Any other literal is reported as invalid XML carrying that literal. |
| TriState.SetTri | tests/text/test_run.py:257-275 | Setting Inherit leaves no element of the tag. Setting True or False leaves the element with the canonical encoding. Elements of other tags are kept, and none is added. |
| TriState.DecodeEncode | tests/text/test_run.py:257-275 | The canonical encoding (bare for on, "0" for off) decodes back to the value encoded. |
| TriState.SetTriCanonical | tests/text/test_run.py:257-275 | After a write, the flag element is bare for True and carries "0" for False. For Inherit there is no element. |
| TriState.GetAfterSet | tests/text/test_run.py:27-34 | Reading a flag right after setting it returns the value set, from any prior state. |
| TriState.SetTriOthers | tests/text/test_run.py:257-275 | Setting one flag leaves what every other tag reads unchanged. |
| TriState.SetTriOrdered | tests/text/test_run.py:257-275 | Setting a flag keeps a schema-ordered `w:rPr` schema-ordered. |
| RunProperties.InsertOrdered | tests/text/test_run.py:257-262 | Inserting an absent tag at its insertion point keeps the block schema-ordered. |
| RunProperties.RemoveOrdered | tests/text/test_run.py:262-274 | Removing a tag keeps the block ordered, and no element of that tag remains. |
| RunProperties.FirstRemove | tests/text/test_run.py:270-274 | After removing tag t, t reads as absent and every other tag reads as before. |
| RunProperties.FirstInsert | tests/text/test_run.py:260-261 | Inserting an absent tag makes it read as the inserted element and changes no other tag's reading. |
| RunProperties.FirstUpdate | tests/text/test_run.py:264-273 | Rewriting the first element of a tag changes that tag's reading only. |
| RunProperties.FoundFromOrdered | tests/text/test_run.py:257-262 | In an ordered block, the successor search finds the first element ranked at or after the tag. |
| RunProperties.First | tests/text/test_run.py:242-250 | The element the getter finds carries the tag and belongs to the block. None means no element has the tag. |
| RunProperties.FoundFrom | tests/text/test_run.py:257-262 | The successor search returns an element ranked at or after the given schema position. None means every element ranks before it. |
| RunProperties.InsertPos | tests/text/test_run.py:257-262 | A new element goes before an element of a later tag, or at the end when every element ranks at or before its tag. |
| RunProperties.Insert | tests/text/test_run.py:260-261 | Insertion adds exactly the new element and keeps every other element. |
| RunProperties.Find | tests/text/test_run.py:242-250 | The index found holds the tag, and no earlier element does. None means the tag is absent. |
| RunProperties.Remove | tests/text/test_run.py:270-274 | No element of the removed tag remains, every element of another tag is kept, and the block does not grow. |
| RunProperties.TagAtRank | tests/text/test_run.py:257-262 | Schema rank identifies the tag: the tag at a tag's rank is that tag. |
| Underline.FromXmlXmlValue | tests/text/test_run.py:332-345 | Every member except INHERITED reads back from its XML literal. |
| Underline.FromCodeCode | tests/text/test_run.py:102-107 | Every member is recovered from its integer value. |
| Underline.ResolveDomain | tests/text/test_run.py:102-107 | A string is never accepted. An integer is accepted exactly when it is some member's value. |
| Underline.Resolve | tests/text/test_run.py:97-107 | Strings, and integers that are no member's value, are rejected as an invalid WD_UNDERLINE. An accepted integer stands for the member with that value. True and False stand for SINGLE and NONE, and a member stands for itself. |
| Underline.ReadUnderline | tests/text/test_run.py:332-345 | Reads None exactly when `w:u` is absent or bare, True exactly for "single", and False exactly for "none". A style reads from its own literal, and an unknown literal is an error. |
| Underline.WriteUnderline | tests/text/test_run.py:347-373 | None leaves no `w:u`, a member leaves a `w:u` with its literal, and elements of other tags are kept with none added. |
| Underline.WriteReadUnderline | tests/text/test_run.py:93-100 | Reading `w:u` after a write gives the getter's view of what was written. |
| Underline.AssignReadsBack | tests/text/test_run.py:347-373 | None reads back as None, True and SINGLE as True, and False and NONE as False. Any other style reads as itself. |
| Underline.WriteUnderlineOthers | tests/text/test_run.py:347-373 | Writing the underline leaves every other property element as it reads. |
| Underline.WriteUnderlineOrdered | tests/text/test_run.py:347-373 | Writing the underline keeps the block schema-ordered. |
| RunContent.RPrIndex | tests/text/test_run.py:160-173 | The index found is the first `w:rPr` child. None means the run has none. |
| RunContent.WithProps | tests/text/test_run.py:257-262 | The new properties block is among the children. One child is added when the run had no `w:rPr`, and none otherwise. |
| RunContent.RPrOnly | tests/text/test_run.py:160-173 | What clearing keeps is exactly the `w:rPr` children. |
| RunContent.Content | tests/text/test_run.py:160-173 | What clearing removes is exactly the children other than `w:rPr`. |
| RunContent.WithPropsSpec | tests/text/test_run.py:257-262 | Replacing the properties keeps the run well formed and its content unchanged. The block is present afterwards and reads as the new properties. |
| RunContent.RPrOnlySpec | tests/text/test_run.py:160-184 | Clearing keeps the properties, leaves no content and no text, and keeps the run well formed. |
| RunContent.ContainsPageBreak | tests/text/test_run.py:36-49 | True exactly when some child is a rendered page break. |
| RunContent.BreakChild | tests/text/test_run.py:124-142 | Each of the six break kinds is written as a `w:br` that reads back as that kind, so the six forms are distinct. Only a line break carries `w:clear`. |
| RunContent.BreakChildSpec | tests/text/test_run.py:124-142 | A line break of any clearing reads as a newline, and a page or column break reads as nothing. |
| RunContent.ChildText | tests/text/test_run.py:186-198 | Only text-like children contribute characters, and every child other than `w:t` contributes at most one. |
| RunContent.Text | tests/text/test_run.py:186-198 | A run with no text-like child has empty text. |
| RunContent.InnerContent | tests/text/test_run.py:51-79 | There are never more items than children, and a run without markers gives at most one item. |
| RunContent.TextConcat | tests/text/test_run.py:186-198 | The text of concatenated children is the concatenation of their texts. |
| RunContent.InnerContentText | tests/text/test_run.py:51-79 | The strings among the inner-content items, joined, are the run's text. |
| RunContent.InnerContentMarkers | tests/text/test_run.py:58-67 | The non-string items are exactly the rendered page breaks and drawings, one each, in document order. |
| RunContent.InnerContentNoAdjacentStrings | tests/text/test_run.py:56-57 | No two string items are adjacent, so a stretch of text is never split. |
| RunContent.InnerContentAfterMarker | tests/text/test_run.py:58-67 | A marker ends the current stretch's item and yields its own item before the rest. |
| RunContent.InnerContentEmpty | tests/text/test_run.py:54-55 | A run without text-like children or markers has no inner content. |
| RunContent.ScanIsInnerContent | tests/text/test_run.py:51-79 | The single accumulator pass yields exactly the inner-content items. |
| RunContent.ScanStretch | tests/text/test_run.py:56-57 | Passing over a stretch with no markers only pushes its text into the accumulator. |
| TextSplit.NeedsPreserveIff | tests/text/test_run.py:228-240 | `xml:space="preserve"` is set exactly when the text is non-empty and starts or ends with whitespace. |
| TextSplit.NewT | tests/text/test_run.py:228-234 | The `w:t` appended holds the string, and it is preserve-marked exactly when the string starts or ends with whitespace. |
| TextSplit.TextContent | tests/text/test_run.py:317-330 | The setter writes only `w:t`, `w:tab` and plain `w:br` children. |
| TextSplit.TextRoundTrip | tests/text/test_run.py:317-330 | The text read from the children written for s is s with each carriage return read as a newline. |
| TextSplit.TextContentCanonical | tests/text/test_run.py:317-330 | The children written for s hold no empty `w:t` and no two adjacent `w:t`. A non-empty s yields some child. |
| TextSplit.TextContentInner | tests/text/test_run.py:317-330 | The children written for s iterate as nothing when s is empty, and otherwise as one string: the normalised s. |
| TextSplit.AppenderIsTextContent | tests/text/test_run.py:317-330 | The character-by-character appender, started with a plain buffer, writes the same children as the reference splitting of buffer and rest. |
| TextSplit.TextContentPlainThen | tests/text/test_run.py:319-322 | A plain word followed by a special character is one `w:t`, then the tab or break, then the rest. |
| TextSplit.NormalizeConcat | tests/text/test_run.py:317-330 | Normalising a concatenation normalises each part. |
| RunModel.Run.constructor | tests/text/test_run.py:45-47 | A run is built over well-formed children. |
| RunModel.Run.IterInnerContent | tests/text/test_run.py:51-79 | The loop yields the inner-content items. Their strings join to the run's text, and no two strings are adjacent. |
| RunModel.Run.SetFlag | tests/text/test_run.py:31-34 | The properties block is created when missing. The flag reads back as set, every other tag is unchanged, and the content is unchanged. A schema-ordered block stays ordered. |
| RunModel.Run.SetUnderline | tests/text/test_run.py:97-107 | An invalid value is reported and leaves the run unchanged. A valid one reads back through the getter's mapping, and other properties and the content are unchanged. A schema-ordered block stays ordered. |
| RunModel.Run.ClearContent | tests/text/test_run.py:160-184 | Only the properties block is kept. The properties are unchanged, and no content or text remains. |
| RunModel.Run.Clear | tests/text/test_run.py:174-184 | Same as ClearContent, and the run itself is returned. |
| RunModel.Run.AddText | tests/text/test_run.py:115-122 | One `w:t` is appended, preserve-marked as its whitespace requires, and the text grows by s. |
| RunModel.Run.AddTab | tests/text/test_run.py:144-147 | One `w:tab` is appended, and the text grows by a tab. |
| RunModel.Run.AddBreak | tests/text/test_run.py:124-142 | The `w:br` of the given kind is appended and reads back as that kind. |
| RunModel.Run.AddPicture | tests/text/test_run.py:149-158 | A `w:drawing` holding the new inline is appended, and the page-break status is unchanged. |
| RunModel.Run.SetText | tests/text/test_run.py:200-203 | The content is replaced by the children written for s, and the properties are unchanged. The text reads back as s with carriage returns as newlines. |
| RunModel.Run.AppendText | tests/text/test_run.py:317-330 | Appending s character by character adds exactly the reference children for s, and the run stays well formed. |
| TestVectors.BoolPropGetCases | tests/text/test_run.py:242-250 | The flag readings of the getter cases. |
| TestVectors.BoolPropGetValueCases | tests/text/test_run.py:247-249 | The flag readings for "off", "1" and "0". |
| TestVectors.BoolPropSetCases | tests/text/test_run.py:259-262 | Setting flags on a run without properties. |
| TestVectors.BoolPropDefaultCases | tests/text/test_run.py:263-273 | Setting flags over a bare element (lines 264-266), and False over "0" (line 273). |
| TestVectors.BoolPropResetCases | tests/text/test_run.py:267-274 | Setting flags over the values of lines 268-272 and 274. |
| TestVectors.UnderlineGetCases | tests/text/test_run.py:332-345 | The underline readings of the getter cases. |
| TestVectors.UnderlineSetCases | tests/text/test_run.py:349 | True is written as `w:u` with value `single` on a run without properties. |
| TestVectors.UnderlineClearCase | tests/text/test_run.py:350 | False is written as `w:u` with value `none` on a run without properties. |
| TestVectors.UnderlineRemoveCase | tests/text/test_run.py:356 | None removes an existing `w:u`. |
| TestVectors.WithPropsBare | tests/text/test_run.py:351 | Writing properties on a run without children creates the `w:rPr` block alone. |
| TestVectors.UnderlineSetMemberCases | tests/text/test_run.py:353 | The `w:u` written for THICK on a run without properties. |
| TestVectors.UnderlineReplaceCase | tests/text/test_run.py:362-366 | DOTTED replaces an existing single underline. |
| TestVectors.UnderlineRejectCases | tests/text/test_run.py:102-107 | "foobar", 42 and "single" are rejected. |
| TestVectors.PageBreakCases | tests/text/test_run.py:36-49 | The four page-break cases. |
| TestVectors.InnerContentCases | tests/text/test_run.py:51-79 | The items of the four iteration cases. |
| TestVectors.EndToEndCase | tests/text/test_run.py:58-62 | A variant of the run at line 60 whose `w:br` is page-typed: it still yields string, rendered page break, string, and it contains a rendered page break. Its text "abcdef" rests on the `ChildText` choices under "Left out" (a page `w:br` and a `w:noBreakHyphen` add nothing). Line 60's own run is in `InnerContentCases`. |
| TestVectors.ClearCases | tests/text/test_run.py:160-173 | What clearing keeps in the six cases. |
| TestVectors.TextCases | tests/text/test_run.py:186-198 | The text of the four cases. |
| TestVectors.AddTextCases | tests/text/test_run.py:228-234 | The `w:t` appended for "foo", "fo " and "f o". |
| TestVectors.TextSetCases | tests/text/test_run.py:317-323 | The children written for the four strings of the setter test. |

## Left out

- The character style (`Run.style`, `w:rStyle`): it resolves through the document's styles part, which is not part of this model.
- `Run.font`: a facade object over the same properties block. The flags it exposes are modelled through `TriState`.
- RunModel.Run.AddPicture: creating the inline shape (image loading, sizes, the part's `new_pic_inline`, the returned `InlineShape`) is not modelled. The method only appends a `w:drawing` holding an opaque inline identifier.
- The run's returned wrappers (the `_Text` proxy of `add_text`, the item objects of `iter_inner_content`) are modelled as the child or item values themselves.
- Laziness: `iter_inner_content` produces its items as an iterator. The model returns the whole sequence.
- XML parsing and serialisation, namespaces, and any unknown child elements (such as the `wp:x` placeholder of the picture test). Children are a closed set of kinds.
- `w:ptab` and WD_BREAK members other than the six line, page and column breaks (section breaks) are not modelled.
- TriState.DecodeOnOff: the ST_OnOff literals are matched exactly as written. A case-insensitive reading ("TRUE", "On") is not modelled and decodes as an error.
- RunContent.ChildText: a `w:br` of type textWrapping (any clearing) reads as a newline, a page or column break and a `w:noBreakHyphen` read as nothing, and `w:cr` reads as a newline. The unit tests fix only `w:tab`, `w:cr` and a page break.
- RunModel.Run.SetUnderline: an invalid value is checked before anything is written, so the run is left unchanged. The unit tests only assert the error, and whether a properties block is created first is not fixed by them.
- RunModel.Run.SetFlag: requires a tag that is an on/off flag (the bool properties of the run and its font). The properties that take other values are not modelled beyond the underline.
