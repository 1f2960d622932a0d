/** apps/web/components/camera/MockOCR.ts: validateExtractedData, which
    collects the failed checks of an extracted DNI record into a list of
    messages in a fixed order. */
module MockOcr {
  import JsText
  import MockData

  const InvalidDni := "Invalid DNI format"
  const Underage := "Must be 18 years or older"
  const NotArgentine := "Only Argentine IDs are supported"
  const NameRequired := "Name is required"
  const LastNameRequired := "Last name is required"

  /** The messages, in the order the checks run. */
  const Messages: seq<string> := [InvalidDni, Underage, NotArgentine, NameRequired, LastNameRequired]

  /** A message's position in Messages (5 for any other text). */
  function Rank(m: string): (k: nat)
    ensures k < |Messages| <==> m in Messages
    ensures k < |Messages| ==> Messages[k] == m
  {
    if m == InvalidDni then 0
    else if m == Underage then 1
    else if m == NotArgentine then 2
    else if m == NameRequired then 3
    else if m == LastNameRequired then 4
    else 5
  }

  /** The one-element list [m] when c holds, else the empty list: what one
      `if (...) errors.push(m)` contributes. */
  function Push(c: bool, m: string): (r: seq<string>)
    ensures m in r <==> c
    ensures |r| <= 1 && forall e :: e in r ==> e == m
  {
    if c then [m] else []
  }

  /** The messages of the failed checks, in check order: flag k says whether
      check k failed. */
  function Reported(failed: seq<bool>): (errors: seq<string>)
    requires |failed| == |Messages|
  {
    Push(failed[0], InvalidDni) + Push(failed[1], Underage) + Push(failed[2], NotArgentine)
      + Push(failed[3], NameRequired) + Push(failed[4], LastNameRequired)
  }

  /** Strictly increasing check order, hence no message twice. */
  predicate InCheckOrder(errors: seq<string>)
  {
    forall i, j :: 0 <= i < j < |errors| ==> Rank(errors[i]) < Rank(errors[j])
  }

  /** Every message in errors belongs to a failed check among the first k. */
  predicate FromFailedChecks(errors: seq<string>, failed: seq<bool>, k: nat)
    requires k <= |failed|
  {
    forall e :: e in errors ==> Rank(e) < k && failed[Rank(e)]
  }

  /** Running check k after the first k keeps both the order and the
      provenance of the messages. */
  lemma PushKeepsOrder(errors: seq<string>, failed: seq<bool>, k: nat)
    requires k < |Messages| == |failed|
    requires InCheckOrder(errors) && FromFailedChecks(errors, failed, k)
    ensures InCheckOrder(errors + Push(failed[k], Messages[k]))
    ensures FromFailedChecks(errors + Push(failed[k], Messages[k]), failed, k + 1)
  {
    RankOfMessages();
    var r := errors + Push(failed[k], Messages[k]);
    forall i, j | 0 <= i < j < |r|
      ensures Rank(r[i]) < Rank(r[j])
    {
      assert r[i] in errors;
      if j >= |errors| {
        assert r[j] == Messages[k];
      }
    }
  }

  /** Each message has its own position. */
  lemma RankOfMessages()
    ensures forall k :: 0 <= k < |Messages| ==> Rank(Messages[k]) == k
  {
    assert Rank(Messages[0]) == 0;
    assert Rank(Messages[1]) == 1;
    assert Rank(Messages[2]) == 2;
    assert Rank(Messages[3]) == 3;
    assert Rank(Messages[4]) == 4;
  }

  /** The reported messages are messages of failed checks, in strictly
      increasing check order, at most one per check. */
  lemma {:induction false} ReportedInOrder(failed: seq<bool>)
    requires |failed| == |Messages|
    ensures InCheckOrder(Reported(failed))
    ensures forall e :: e in Reported(failed) ==> e in Messages && failed[Rank(e)]
    ensures |Reported(failed)| <= |Messages|
  {
    assert Messages[0] == InvalidDni && Messages[1] == Underage && Messages[2] == NotArgentine;
    assert Messages[3] == NameRequired && Messages[4] == LastNameRequired;
    var p1 := Push(failed[0], InvalidDni);
    PushKeepsOrder([], failed, 0);
    assert [] + p1 == p1;
    PushKeepsOrder(p1, failed, 1);
    var p2 := p1 + Push(failed[1], Underage);
    PushKeepsOrder(p2, failed, 2);
    var p3 := p2 + Push(failed[2], NotArgentine);
    PushKeepsOrder(p3, failed, 3);
    var p4 := p3 + Push(failed[3], NameRequired);
    PushKeepsOrder(p4, failed, 4);
    var p5 := p4 + Push(failed[4], LastNameRequired);
    assert p5 == Reported(failed);
    assert FromFailedChecks(p5, failed, 5);
  }

  /** A check's message is reported exactly when the check failed, and
      nothing is reported exactly when every check passed. */
  lemma ReportedExactly(failed: seq<bool>)
    requires |failed| == |Messages|
    ensures forall k :: 0 <= k < |Messages| ==> (Messages[k] in Reported(failed) <==> failed[k])
    ensures Reported(failed) == [] <==> forall k :: 0 <= k < |Messages| ==> !failed[k]
  {
    ReportedInOrder(failed);
    RankOfMessages();
    forall k | 0 <= k < |Messages| && failed[k]
      ensures Messages[k] in Reported(failed)
    {
      assert Messages[k] in Push(failed[k], Messages[k]);
    }
  }

  /** The object validateExtractedData returns. */
  datatype ValidationResult = ValidationResult(valid: bool, errors: seq<string>)

  /** The five checks of validateExtractedData, in the order they run, each
      true when it fails: DNI format, age, nationality, first name, last
      name. A name counts as missing when it is empty after trimming. */
  function FailedChecks(data: MockData.MockDniData, parse: MockData.DateParser, today: MockData.Date): (failed: seq<bool>)
    ensures |failed| == |Messages|
  {
    [!MockData.ValidateDni(data.dni),
     !MockData.ValidateAge(parse, data.fechaNacimiento, today),
     data.nacionalidad != "Argentina",
     |JsText.Trim(data.nombre)| == 0,
     |JsText.Trim(data.apellido)| == 0]
  }

  /** validateExtractedData: one message per failed check, appended in
      check order; valid when nothing was appended. */
  method ValidateExtractedData(data: MockData.MockDniData, parse: MockData.DateParser, today: MockData.Date)
    returns (r: ValidationResult)
    ensures r.errors == Reported(FailedChecks(data, parse, today))
    ensures r.valid <==> r.errors == []
  {
    var errors: seq<string> := [];
    if !MockData.ValidateDni(data.dni) {
      errors := errors + [InvalidDni];
    }
    ghost var failed := FailedChecks(data, parse, today);
    assert errors == Push(failed[0], InvalidDni);
    if !MockData.ValidateAge(parse, data.fechaNacimiento, today) {
      errors := errors + [Underage];
    }
    assert errors == Push(failed[0], InvalidDni) + Push(failed[1], Underage);
    if data.nacionalidad != "Argentina" {
      errors := errors + [NotArgentine];
    }
    assert errors == Push(failed[0], InvalidDni) + Push(failed[1], Underage) + Push(failed[2], NotArgentine);
    if |JsText.Trim(data.nombre)| == 0 {
      errors := errors + [NameRequired];
    }
    assert errors == Push(failed[0], InvalidDni) + Push(failed[1], Underage) + Push(failed[2], NotArgentine)
                     + Push(failed[3], NameRequired);
    if |JsText.Trim(data.apellido)| == 0 {
      errors := errors + [LastNameRequired];
    }
    r := ValidationResult(|errors| == 0, errors);
  }

  /** What validateExtractedData promises: each message is reported exactly
      when its check fails (a name fails when it is blank), nothing else is
      reported, the messages keep the check order with no repeats, and the
      record is valid exactly when every check passes. */
  lemma ValidationMeaning(data: MockData.MockDniData, parse: MockData.DateParser, today: MockData.Date)
    ensures var errors := Reported(FailedChecks(data, parse, today));
      && (InvalidDni in errors <==> !MockData.ValidateDni(data.dni))
      && (Underage in errors <==> !MockData.ValidateAge(parse, data.fechaNacimiento, today))
      && (NotArgentine in errors <==> data.nacionalidad != "Argentina")
      && (NameRequired in errors <==> JsText.Blank(data.nombre))
      && (LastNameRequired in errors <==> JsText.Blank(data.apellido))
      && (forall e :: e in errors ==> e in Messages)
      && InCheckOrder(errors)
      && |errors| <= |Messages|
      && (errors == [] <==>
            (MockData.ValidateDni(data.dni) && MockData.ValidateAge(parse, data.fechaNacimiento, today)
             && data.nacionalidad == "Argentina" && !JsText.Blank(data.nombre) && !JsText.Blank(data.apellido)))
  {
    var failed := FailedChecks(data, parse, today);
    ReportedInOrder(failed);
    ReportedExactly(failed);
    assert Messages[0] == InvalidDni && Messages[1] == Underage && Messages[2] == NotArgentine;
    assert Messages[3] == NameRequired && Messages[4] == LastNameRequired;
    JsText.TrimEmptyIffBlank(data.nombre);
    JsText.TrimEmptyIffBlank(data.apellido);
  }
}
