/** `validateRequired`: reports, all at once and in order, the required fields of a record
    whose value is falsy or a string that is blank once trimmed. */
module Validation {
  import opened Wrappers
  import opened Types
  import opened Js
  import opened Seqs

  /** A `Record<string, unknown>`, as its own enumerable properties. */
  type Record = map<string, JsValue>

  /** `obj[field]`: a property the record does not have reads as `undefined`. */
  function Get(obj: Record, field: string): JsValue {
    if field in obj then obj[field] else Undefined
  }

  /** The filter condition: the value is falsy, or it is a string whose trim is empty. */
  predicate IsMissing(v: JsValue) {
    !IsTruthy(v) || (v.Str? && Trim(v.s) == [])
  }

  /** The values that count as missing, listed outright. */
  lemma IsMissingCases(v: JsValue)
    ensures IsMissing(v) <==>
      || v == Undefined || v == JsValue.Null || v == Bool(false) || v == Num(0.0) || v == NaN || v == BigInt(0)
      || (v.Str? && AllWhitespace(v.s))
  {
    if v.Str? {
      TrimEmptyIff(v.s);
    }
  }

  /** The filter condition for a given record, as a value `Filter` can take. */
  function MissingIn(obj: Record): string -> bool {
    field => IsMissing(Get(obj, field))
  }

  /** `requiredFields.filter(...)`: the required fields that are missing from `obj`. */
  function MissingFields(obj: Record, requiredFields: seq<string>): (missing: seq<string>)
    ensures forall i :: 0 <= i < |missing| ==> IsMissing(Get(obj, missing[i]))
    ensures missing == [] <==> forall i :: 0 <= i < |requiredFields| ==> !IsMissing(Get(obj, requiredFields[i]))
  {
    Filter(requiredFields, MissingIn(obj))
  }

  const ValidationErrorCode: string := "VALIDATION_ERROR"
  const MissingFieldsPrefix: string := "Missing required fields: "

  /** `validateRequired`: `None` plays the part of the `null` it returns when nothing is missing. */
  function ValidateRequired(obj: Record, requiredFields: seq<string>): (r: Option<AppError>)
    ensures r == None <==> forall i :: 0 <= i < |requiredFields| ==> !IsMissing(Get(obj, requiredFields[i]))
    ensures r.Some? ==>
      var missing := MissingFields(obj, requiredFields);
      && missing != []
      && r.value.code == "VALIDATION_ERROR"
      && r.value.message == "Missing required fields: " + Join(missing, ", ")
      && r.value.details == Some(MissingFieldsDetails(missing))
  {
    var missing := MissingFields(obj, requiredFields);
    if |missing| > 0 then
      Some(AppError(ValidationErrorCode, MissingFieldsPrefix + Join(missing, ", "), Some(MissingFieldsDetails(missing))))
    else
      None
  }

  /** The reported list keeps the order of `requiredFields`, and reports every occurrence of
      each missing field (a field listed twice is reported twice) and no occurrence of any other. */
  lemma MissingFieldsExactly(obj: Record, requiredFields: seq<string>)
    ensures IsSubsequence(MissingFields(obj, requiredFields), requiredFields)
    ensures forall f ::
      multiset(MissingFields(obj, requiredFields))[f] == if IsMissing(Get(obj, f)) then multiset(requiredFields)[f] else 0
  {
    FilterIsSubsequence(requiredFields, MissingIn(obj));
    forall f ensures multiset(MissingFields(obj, requiredFields))[f] ==
      (if IsMissing(Get(obj, f)) then multiset(requiredFields)[f] else 0)
    {
      FilterCount(requiredFields, MissingIn(obj), f);
    }
  }

  /** ... and it is the only list that does so. */
  lemma MissingFieldsUnique(obj: Record, requiredFields: seq<string>, r: seq<string>)
    requires IsSubsequence(r, requiredFields)
    requires forall f :: multiset(r)[f] == if IsMissing(Get(obj, f)) then multiset(requiredFields)[f] else 0
    ensures r == MissingFields(obj, requiredFields)
  {
    FilterUnique(requiredFields, MissingIn(obj), r);
  }

  /** Sample call: nothing present, both fields reported in the order given. */
  lemma EmptyRecordExample()
    ensures ValidateRequired(map[], ["name", "email"]) ==
      Some(AppError("VALIDATION_ERROR", "Missing required fields: name, email",
        Some(MissingFieldsDetails(["name", "email"]))))
  {
    var fields := ["name", "email"];
    assert Get(map[], "name") == Undefined && Get(map[], "email") == Undefined;
    assert MissingFields(map[], fields) == fields;
    assert Join(fields, ", ") == "name, email";
    assert MissingFieldsPrefix + "name, email" == "Missing required fields: name, email";
  }

  /** Sample call: a name that is blank once trimmed is reported; the e-mail is not. */
  lemma BlankFieldExample()
    ensures ValidateRequired(map["name" := Str(" "), "email" := Str("a@b.com")], ["name", "email"]) ==
      Some(AppError(ValidationErrorCode, MissingFieldsPrefix + "name", Some(MissingFieldsDetails(["name"]))))
  {
    var fields := ["name", "email"];
    var obj := map["name" := Str(" "), "email" := Str("a@b.com")];
    var p := MissingIn(obj);
    assert p("name") by {
      IsMissingCases(Str(" "));
      assert Get(obj, "name") == Str(" ");
    }
    assert !p("email") by {
      IsMissingCases(Str("a@b.com"));
      assert "a@b.com"[0] == 'a';
      assert Get(obj, "email") == Str("a@b.com");
    }
    assert MissingFields(obj, fields) == ["name"] by {
      assert fields[1..] == ["email"];
      assert Filter(["email"], p) == [];
    }
    assert Join(["name"], ", ") == "name";
  }

  /** A string that starts with a non-whitespace character is not missing. */
  lemma WordIsPresent(w: string)
    requires w != [] && !IsWhitespace(w[0])
    ensures !IsMissing(Str(w))
  {
    TrimEmptyIff(w);
  }

  /** Sample call: every field present and non-blank, so the result is `null`. */
  lemma CompleteRecordExample()
    ensures ValidateRequired(map["name" := Str("Bob"), "email" := Str("a@b.com")], ["name", "email"]) == None
  {
    var obj := map["name" := Str("Bob"), "email" := Str("a@b.com")];
    var fields := ["name", "email"];
    assert !IsMissing(Get(obj, fields[0])) by {
      WordIsPresent("Bob");
    }
    assert !IsMissing(Get(obj, fields[1])) by {
      WordIsPresent("a@b.com");
    }
  }
}
