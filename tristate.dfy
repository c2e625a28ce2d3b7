/**
 The property codec for on/off flags (bold, italic, ...): an element of `w:rPr`
 read and written as a three-valued setting, where absence means "inherit".
 */
module TriState {
  import opened Wrappers
  import opened RunProperties

  /** A flag's logical value: explicitly on, explicitly off, or inherited from the style hierarchy. */
  datatype Tri = True | False | Inherit

  /**
   Decoding of an ST_OnOff `w:val` attribute. A missing attribute means on; the
   six literals are matched exactly as written, and any other literal is reported.
   */
  function DecodeOnOff(val: Option<string>): (r: Result<bool, Error>)
    ensures r.Ok? <==> val.None? || val.value in {"1", "0", "true", "false", "on", "off"}
    ensures r == Ok(true) <==> val.None? || val.value in {"1", "true", "on"}
    ensures r.Err? ==> r.error == InvalidXml(val.value)
  {
    match val
    case None => Ok(true)
    case Some(s) =>
      if s == "1" || s == "true" || s == "on" then Ok(true)
      else if s == "0" || s == "false" || s == "off" then Ok(false)
      else Err(InvalidXml(s))
  }

  /** The canonical encoding: on is the default and leaves no attribute, off is "0". */
  function EncodeOnOff(b: bool): Option<string>
  {
    if b then None else Some("0")
  }

  /** Decoding undoes the canonical encoding. */
  lemma DecodeEncode(b: bool)
    ensures DecodeOnOff(EncodeOnOff(b)) == Ok(b)
  {
  }

  /**
   The flag `t` as the run-property getter reports it: absent is Inherit; a bare
   element or one whose `w:val` is "1", "true" or "on" is True; "0", "false" or
   "off" is False; any other literal is an error.
   */
  function GetTri(props: seq<Prop>, t: RPrTag): (r: Result<Tri, Error>)
    ensures r == Ok(Inherit) <==> First(props, t).None?
    ensures r == Ok(True) <==>
              First(props, t).Some? &&
              (First(props, t).value.val.None? || First(props, t).value.val.value in {"1", "true", "on"})
    ensures r == Ok(False) <==>
              First(props, t).Some? && First(props, t).value.val.Some? &&
              First(props, t).value.val.value in {"0", "false", "off"}
  {
    match First(props, t)
    case None => Ok(Inherit)
    case Some(p) =>
      match DecodeOnOff(p.val)
      case Ok(b) => Ok(if b then True else False)
      case Err(e) => Err(e)
  }

  /**
   The flag `t` set to `v`: Inherit removes every `t` element; True or False
   rewrites the `w:val` of the first `t` element in place, or inserts a new
   element at its schema position when there is none.
   */
  function SetTri(props: seq<Prop>, t: RPrTag, v: Tri): (r: seq<Prop>)
    ensures v == Inherit ==> forall k :: 0 <= k < |r| ==> r[k].tag != t
    ensures v != Inherit ==> Prop(t, EncodeOnOff(v == True)) in r
    ensures forall q: Prop :: q.tag != t ==> (q in r <==> q in props)
  {
    if v == Inherit then Remove(props, t)
    else
      var p := Prop(t, EncodeOnOff(v == True));
      match Find(props, t)
      case Some(i) =>
        assert forall j :: 0 <= j < |props| && j != i ==> props[i := p][j] == props[j];
        assert props[i := p][i] == p;
        props[i := p]
      case None => Insert(props, p)
  }

  /** After a write the flag element, if any, carries the canonical encoding of the value written. */
  lemma SetTriCanonical(props: seq<Prop>, t: RPrTag, v: Tri)
    ensures First(SetTri(props, t, v), t) ==
              match v
              case True => Some(Prop(t, None))
              case False => Some(Prop(t, Some("0")))
              case Inherit => None
  {
    if v == Inherit {
      FirstRemove(props, t, t);
    } else {
      var p := Prop(t, EncodeOnOff(v == True));
      match Find(props, t)
      case Some(i) => FirstUpdate(props, i, p, t);
      case None =>
        FirstIsAtFind(props, t);
        FirstInsert(props, p, t);
    }
  }

  /** Reading a flag back returns the value just written. */
  lemma GetAfterSet(props: seq<Prop>, t: RPrTag, v: Tri)
    ensures GetTri(SetTri(props, t, v), t) == Ok(v)
  {
    SetTriCanonical(props, t, v);
  }

  /** Writing one flag leaves the element every other tag reads unchanged. */
  lemma SetTriOthers(props: seq<Prop>, t: RPrTag, v: Tri, u: RPrTag)
    requires u != t
    ensures First(SetTri(props, t, v), u) == First(props, u)
  {
    if v == Inherit {
      FirstRemove(props, t, u);
    } else {
      var p := Prop(t, EncodeOnOff(v == True));
      match Find(props, t)
      case Some(i) => FirstUpdate(props, i, p, u);
      case None =>
        FirstIsAtFind(props, t);
        FirstInsert(props, p, u);
    }
  }

  /** Writing a flag keeps a schema-ordered `w:rPr` schema-ordered. */
  lemma SetTriOrdered(props: seq<Prop>, t: RPrTag, v: Tri)
    requires Ordered(props)
    ensures Ordered(SetTri(props, t, v))
  {
    if v == Inherit {
      RemoveOrdered(props, t);
    } else {
      var p := Prop(t, EncodeOnOff(v == True));
      match Find(props, t)
      case Some(i) =>
        var r := props[i := p];
        assert forall k :: 0 <= k < |r| ==> r[k].tag == props[k].tag;
      case None => InsertOrdered(props, p);
    }
  }
}
