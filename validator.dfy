/** The response validator: a decoded classifier reply is trusted only when it
    is an object whose "className" is one of the four category labels. */
module Validator {
  import opened Common
  import opened Json

  /** The four categories: shopping, document, music and other. */
  datatype Label = Shopping | Document | Music | Other

  /** The Korean text the classifier is asked to answer with for each label. */
  function LabelText(l: Label): string
  {
    match l
    case Shopping => "쇼핑"
    case Document => "문서"
    case Music => "음악"
    case Other => "기타"
  }

  /** The label texts the validator accepts. */
  const ValidClasses: set<string> := {"쇼핑", "문서", "음악", "기타"}

  /** The label a "className" value names, if it names one. */
  function LabelOf(v: JValue): (r: Option<Label>)
    ensures r.Some? <==> v.JString? && v.s in ValidClasses
    ensures r.Some? ==> v == JString(LabelText(r.value))
  {
    if v == JString(LabelText(Shopping)) then Some(Shopping)
    else if v == JString(LabelText(Document)) then Some(Document)
    else if v == JString(LabelText(Music)) then Some(Music)
    else if v == JString(LabelText(Other)) then Some(Other)
    else None
  }

  /** The record a well-behaved classifier returns for label `l`. */
  function Record(l: Label): JValue
  {
    JObject(map["className" := JString(LabelText(l))])
  }

  /** The three distinct `ValueError`s the validator raises, in the order it checks for them. */
  datatype ValidationError =
    | NotObject
    | MissingClassName
    | InvalidClassName(value: JValue)

  datatype Verdict = Accepted | Rejected(error: ValidationError)

  /** Validation as the service evidently means it: not an object, then no
      "className", then a "className" outside the four labels. Unlike the
      code as written (see ValidateAsWritten), a list or object under
      "className" is an invalid class name like any other value. */
  function Validate(v: JValue): (r: Verdict)
    ensures r == Rejected(NotObject) <==> !v.JObject?
    ensures r == Rejected(MissingClassName) <==> v.JObject? && "className" !in v.fields
    ensures r.Rejected? && r.error.InvalidClassName? <==>
              v.JObject? && "className" in v.fields && LabelOf(v.fields["className"]).None?
    ensures r.Rejected? && r.error.InvalidClassName? ==> r.error.value == v.fields["className"]
    ensures r == Accepted <==>
              v.JObject? && "className" in v.fields &&
              exists l: Label :: v.fields["className"] == JString(LabelText(l))
  {
    if !v.JObject? then Rejected(NotObject)
    else if "className" !in v.fields then Rejected(MissingClassName)
    else
      var name := v.fields["className"];
      match LabelOf(name)
      case None => Rejected(InvalidClassName(name))
      case Some(l) => Accepted
  }

  /** Every record built from a label passes validation and names that label back. */
  lemma RecordIsAccepted(l: Label)
    ensures Validate(Record(l)) == Accepted
    ensures LabelOf(Record(l).fields["className"]) == Some(l)
  {
    match l
    case Shopping =>
    case Document =>
    case Music =>
    case Other =>
  }

  /** How Python renders the two interpolated parts of the invalid-label
      message: `show` is `str()` of the offending value, `allowed` is `str()` of
      the label set, whose element order depends on the interpreter's string
      hashing. */
  datatype Formatter = Formatter(show: JValue -> string, allowed: string)

  /** The opening words of the invalid-label message. */
  const InvalidPrefix: string := "유효하지 않은 className: "

  /** The text of the `ValueError` raised for each validation failure. Only
      the invalid-label message starts with InvalidPrefix; it shows the
      offending value right after that prefix and ends with the label set. */
  function ErrorMessage(e: ValidationError, fmt: Formatter): (r: string)
    ensures StartsWith(r, InvalidPrefix) <==> e.InvalidClassName?
    ensures e.InvalidClassName? ==>
              StartsWith(r[|InvalidPrefix|..], fmt.show(e.value)) && EndsWith(r, ". 허용 값: " + fmt.allowed)
  {
    match e
    case NotObject =>
      var m := "응답 데이터가 JSON 형식이 아닙니다.";
      assert m[0] != InvalidPrefix[0];
      m
    case MissingClassName =>
      var m := "응답 데이터에 'className' 키가 없습니다.";
      assert m[0] != InvalidPrefix[0];
      m
    case InvalidClassName(value) => InvalidPrefix + fmt.show(value) + ". 허용 값: " + fmt.allowed
  }

  /** Two validation failures of the same kind (the invalid-label ones may
      differ in the value they carry). */
  predicate SameKind(e1: ValidationError, e2: ValidationError)
  {
    (e1.NotObject? && e2.NotObject?)
    || (e1.MissingClassName? && e2.MissingClassName?)
    || (e1.InvalidClassName? && e2.InvalidClassName?)
  }

  /** Different kinds of validation failure never share a message text. */
  lemma ErrorMessagesDistinct(e1: ValidationError, e2: ValidationError, fmt: Formatter)
    requires !SameKind(e1, e2)
    ensures ErrorMessage(e1, fmt) != ErrorMessage(e2, fmt)
  {
    // The invalid-label text is told apart by its prefix (ErrorMessage's
    // contract); the two fixed texts differ in their seventh character.
  }

  // ---------------------------------------------------------------------------
  // The validator as written: `x not in valid_classes` on a Python set hashes x,
  // so a list or dict under "className" raises TypeError, not ValueError.

  /** Whether Python can hash the value (lists and dicts cannot). */
  predicate IsHashable(v: JValue)
  {
    !v.JArray? && !v.JObject?
  }

  /** What `validate_response` does as written: return, raise ValueError, or raise TypeError. */
  datatype PyCheck = Returns | RaisesValueError(error: ValidationError) | RaisesTypeError(offending: JValue)

  function ValidateAsWritten(v: JValue): (r: PyCheck)
    ensures r.RaisesTypeError? <==>
              v.JObject? && "className" in v.fields && !IsHashable(v.fields["className"])
    ensures !r.RaisesTypeError? ==>
              (r == Returns <==> Validate(v) == Accepted) &&
              (r.RaisesValueError? ==> Validate(v) == Rejected(r.error))
  {
    if !v.JObject? then RaisesValueError(NotObject)
    else if "className" !in v.fields then RaisesValueError(MissingClassName)
    else
      var name := v.fields["className"];
      if !IsHashable(name) then RaisesTypeError(name)
      else if !(name.JString? && name.s in ValidClasses) then RaisesValueError(InvalidClassName(name))
      else Returns
  }

  /** The input that shows the discrepancy: a label wrapped in a list. The
      as-written validator raises TypeError, which the retry loop does not
      catch; the corrected validator rejects it as an invalid class name. */
  lemma ListClassNameRaisesTypeError()
    ensures var v := JObject(map["className" := JArray([JString("쇼핑")])]);
            ValidateAsWritten(v) == RaisesTypeError(JArray([JString("쇼핑")])) &&
            Validate(v) == Rejected(InvalidClassName(JArray([JString("쇼핑")])))
  {
  }
}
