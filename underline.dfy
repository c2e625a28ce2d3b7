/**
 The underline property: a WD_UNDERLINE member stored as the `w:val` literal of a
 `w:u` element of `w:rPr`, read back as None / True / False / a named style.
 */
module Underline {
  import opened Wrappers
  import opened RunProperties

  /** The members of WD_UNDERLINE. */
  datatype WdUnderline =
    | Inherited | NoUnderline | Single | Words | Double | Dotted | Thick | Dash
    | DotDash | DotDotDash | Wavy | DottedHeavy | DashHeavy | DotDashHeavy
    | DotDotDashHeavy | WavyHeavy | DashLong | WavyDouble | DashLongHeavy

  /** The ST_Underline literal of a member; Inherited has none. */
  function XmlValue(u: WdUnderline): Option<string>
  {
    match u
    case Inherited => None
    case NoUnderline => Some("none")
    case Single => Some("single")
    case Words => Some("words")
    case Double => Some("double")
    case Dotted => Some("dotted")
    case Thick => Some("thick")
    case Dash => Some("dash")
    case DotDash => Some("dotDash")
    case DotDotDash => Some("dotDotDash")
    case Wavy => Some("wave")
    case DottedHeavy => Some("dottedHeavy")
    case DashHeavy => Some("dashedHeavy")
    case DotDashHeavy => Some("dashDotHeavy")
    case DotDotDashHeavy => Some("dashDotDotHeavy")
    case WavyHeavy => Some("wavyHeavy")
    case DashLong => Some("dashLong")
    case WavyDouble => Some("wavyDouble")
    case DashLongHeavy => Some("dashLongHeavy")
  }

  /** The integer value of a member, the same numbering as Word's WdUnderline. */
  function Code(u: WdUnderline): int
  {
    match u
    case Inherited => -1
    case NoUnderline => 0
    case Single => 1
    case Words => 2
    case Double => 3
    case Dotted => 4
    case Thick => 6
    case Dash => 7
    case DotDash => 9
    case DotDotDash => 10
    case Wavy => 11
    case DottedHeavy => 20
    case DashHeavy => 23
    case DotDashHeavy => 25
    case DotDotDashHeavy => 26
    case WavyHeavy => 27
    case DashLong => 39
    case WavyDouble => 43
    case DashLongHeavy => 55
  }

  /** The member whose literal is `s`, if any (`from_xml`; the empty string never maps). */
  function FromXml(s: string): (r: Option<WdUnderline>)
    ensures r.Some? ==> XmlValue(r.value) == Some(s)
  {
    if s == "none" then Some(NoUnderline)
    else if s == "single" then Some(Single)
    else if s == "words" then Some(Words)
    else if s == "double" then Some(Double)
    else if s == "dotted" then Some(Dotted)
    else if s == "thick" then Some(Thick)
    else if s == "dash" then Some(Dash)
    else if s == "dotDash" then Some(DotDash)
    else if s == "dotDotDash" then Some(DotDotDash)
    else if s == "wave" then Some(Wavy)
    else if s == "dottedHeavy" then Some(DottedHeavy)
    else if s == "dashedHeavy" then Some(DashHeavy)
    else if s == "dashDotHeavy" then Some(DotDashHeavy)
    else if s == "dashDotDotHeavy" then Some(DotDotDashHeavy)
    else if s == "wavyHeavy" then Some(WavyHeavy)
    else if s == "dashLong" then Some(DashLong)
    else if s == "wavyDouble" then Some(WavyDouble)
    else if s == "dashLongHeavy" then Some(DashLongHeavy)
    else None
  }

  /** The member whose integer value is `n`, if any (`WD_UNDERLINE(n)`). */
  function FromCode(n: int): (r: Option<WdUnderline>)
    ensures r.Some? ==> Code(r.value) == n
  {
    if n == -1 then Some(Inherited)
    else if n == 0 then Some(NoUnderline)
    else if n == 1 then Some(Single)
    else if n == 2 then Some(Words)
    else if n == 3 then Some(Double)
    else if n == 4 then Some(Dotted)
    else if n == 6 then Some(Thick)
    else if n == 7 then Some(Dash)
    else if n == 9 then Some(DotDash)
    else if n == 10 then Some(DotDotDash)
    else if n == 11 then Some(Wavy)
    else if n == 20 then Some(DottedHeavy)
    else if n == 23 then Some(DashHeavy)
    else if n == 25 then Some(DotDashHeavy)
    else if n == 26 then Some(DotDotDashHeavy)
    else if n == 27 then Some(WavyHeavy)
    else if n == 39 then Some(DashLong)
    else if n == 43 then Some(WavyDouble)
    else if n == 55 then Some(DashLongHeavy)
    else None
  }

  /** Every member with a literal is found again from it. */
  lemma FromXmlXmlValue(u: WdUnderline)
    requires u != Inherited
    ensures XmlValue(u).Some? && FromXml(XmlValue(u).value) == Some(u)
  {
  }

  /** Every member is found again from its integer value. */
  lemma FromCodeCode(u: WdUnderline)
    ensures FromCode(Code(u)) == Some(u)
  {
  }

  /** A value assigned to `Run.underline`, as the dynamically typed caller may pass it. */
  datatype UnderlineValue =
    | NoneValue
    | BoolValue(b: bool)
    | EnumValue(member: WdUnderline)
    | IntValue(n: int)
    | StrValue(s: string)

  /**
   What the setter will store: None removes `w:u`, True and False stand for
   SINGLE and NONE, a member or a member's integer value stands for that member;
   anything else is not a valid WD_UNDERLINE.
   */
  function Resolve(v: UnderlineValue): (r: Result<Option<WdUnderline>, Error>)
    ensures r.Err? <==> v.StrValue? || (v.IntValue? && FromCode(v.n).None?)
    ensures r.Err? ==> r.error == InvalidUnderline
    ensures r.Ok? && v.IntValue? ==> r.value.Some? && Code(r.value.value) == v.n
    ensures v.EnumValue? ==> r == Ok(Some(v.member))
    ensures v.BoolValue? ==> r.Ok? && r.value.Some? && r.value.value in {Single, NoUnderline}
  {
    match v
    case NoneValue => Ok(None)
    case BoolValue(b) => Ok(Some(if b then Single else NoUnderline))
    case EnumValue(u) => Ok(Some(u))
    case IntValue(n) =>
      (match FromCode(n)
       case Some(u) => Ok(Some(u))
       case None => Err(InvalidUnderline))
    case StrValue(_) => Err(InvalidUnderline)
  }

  /** Strings are never accepted, and an integer is accepted exactly when it is some member's value. */
  lemma ResolveDomain(v: UnderlineValue)
    ensures v.StrValue? ==> Resolve(v) == Err(InvalidUnderline)
    ensures v.IntValue? ==> (Resolve(v).Ok? <==> exists u :: Code(u) == v.n)
  {
    if v.IntValue? && exists u :: Code(u) == v.n {
      var u :| Code(u) == v.n;
      FromCodeCode(u);
    }
  }

  /** What `Run.underline` reports: None, True, False or a named style. */
  datatype UnderlineState = NotSet | Underlined | NotUnderlined | Styled(style: WdUnderline)

  /** The getter's mapping: SINGLE reads as True, NONE as False, the rest as themselves. */
  function Reading(u: Option<WdUnderline>): UnderlineState
  {
    match u
    case None => NotSet
    case Some(Inherited) => NotSet
    case Some(Single) => Underlined
    case Some(NoUnderline) => NotUnderlined
    case Some(m) => Styled(m)
  }

  /** The underline of a properties block; a literal outside ST_Underline is an error. */
  function ReadUnderline(props: seq<Prop>): (r: Result<UnderlineState, Error>)
    ensures r == Ok(NotSet) <==> First(props, U).None? || First(props, U).value.val.None?
    ensures r == Ok(Underlined) <==> First(props, U) == Some(Prop(U, Some("single")))
    ensures r == Ok(NotUnderlined) <==> First(props, U) == Some(Prop(U, Some("none")))
    ensures r.Ok? && r.value.Styled? ==> First(props, U) == Some(Prop(U, XmlValue(r.value.style)))
    ensures r.Err? <==>
              First(props, U).Some? && First(props, U).value.val.Some? &&
              FromXml(First(props, U).value.val.value).None?
  {
    match First(props, U)
    case None => Ok(NotSet)
    case Some(p) =>
      match p.val
      case None => Ok(NotSet)
      case Some(s) =>
        match FromXml(s)
        case None => Err(InvalidXml(s))
        case Some(u) => Ok(Reading(Some(u)))
  }

  /** The block with every `w:u` removed and, for a member, a new `w:u` carrying its literal. */
  function WriteUnderline(props: seq<Prop>, u: Option<WdUnderline>): (r: seq<Prop>)
    ensures u.None? ==> forall k :: 0 <= k < |r| ==> r[k].tag != U
    ensures u.Some? ==> Prop(U, XmlValue(u.value)) in r
    ensures forall q: Prop :: q.tag != U ==> (q in r <==> q in props)
  {
    var rest := Remove(props, U);
    match u
    case None => rest
    case Some(m) => Insert(rest, Prop(U, XmlValue(m)))
  }

  /** Reading back what was written gives the getter's view of it. */
  lemma WriteReadUnderline(props: seq<Prop>, u: Option<WdUnderline>)
    ensures ReadUnderline(WriteUnderline(props, u)) == Ok(Reading(u))
  {
    var rest := Remove(props, U);
    FirstRemove(props, U, U);
    if u.Some? {
      FirstInsert(rest, Prop(U, XmlValue(u.value)), U);
      if u.value != Inherited {
        FromXmlXmlValue(u.value);
      }
    }
  }

  /**
   Every accepted assignment reads back as assigned: None as None, True and SINGLE
   as True, False and NONE as False, any other style as itself.
   */
  lemma AssignReadsBack(props: seq<Prop>, v: UnderlineValue)
    requires Resolve(v).Ok?
    ensures v == NoneValue ==> ReadUnderline(WriteUnderline(props, Resolve(v).value)) == Ok(NotSet)
    ensures v == BoolValue(true) || v == EnumValue(Single) ==>
              ReadUnderline(WriteUnderline(props, Resolve(v).value)) == Ok(Underlined)
    ensures v == BoolValue(false) || v == EnumValue(NoUnderline) ==>
              ReadUnderline(WriteUnderline(props, Resolve(v).value)) == Ok(NotUnderlined)
    ensures v.EnumValue? && v.member !in {Inherited, Single, NoUnderline} ==>
              ReadUnderline(WriteUnderline(props, Resolve(v).value)) == Ok(Styled(v.member))
  {
    WriteReadUnderline(props, Resolve(v).value);
  }

  /** Writing the underline leaves every other property element as it reads. */
  lemma WriteUnderlineOthers(props: seq<Prop>, u: Option<WdUnderline>, t: RPrTag)
    requires t != U
    ensures First(WriteUnderline(props, u), t) == First(props, t)
  {
    var rest := Remove(props, U);
    FirstRemove(props, U, t);
    if u.Some? {
      FirstRemove(props, U, U);
      FirstInsert(rest, Prop(U, XmlValue(u.value)), t);
    }
  }

  /** Writing the underline keeps a schema-ordered `w:rPr` schema-ordered. */
  lemma WriteUnderlineOrdered(props: seq<Prop>, u: Option<WdUnderline>)
    requires Ordered(props)
    ensures Ordered(WriteUnderline(props, u))
  {
    RemoveOrdered(props, U);
    if u.Some? {
      InsertOrdered(Remove(props, U), Prop(U, XmlValue(u.value)));
    }
  }
}
