/** apps/web/lib/MockDataGenerator.ts: the Argentine DNI format check, age
    from a birth date, and the demo generator (names, age, birth date string,
    DNI number bracketed by birth year). `Math.random()` draws are
    parameters, real numbers in [0, 1); the clock and `new Date(string)` are
    parameters too. */
module MockData {
  import opened Outcomes
  import Numerals
  import JsText

  /** A date as the local getters report it: getFullYear, getMonth, getDate. */
  datatype Date = Date(year: int, month: int, day: int)

  /** `new Date(text)` read through the local getters; None for an Invalid
      Date, whose getters all return NaN. */
  type DateParser = string -> Option<Date>

  /** MockDNIData. */
  datatype MockDniData = MockDniData(
    nombre: string, apellido: string, dni: string, fechaNacimiento: string, nacionalidad: string)

  const NombresMasculinos: seq<string> := [
    "Juan", "Carlos", "Miguel", "Diego", "Luis",
    "José", "Ricardo", "Jorge", "Alberto", "Martín",
    "Fernando", "Alejandro", "Pablo", "Javier", "Sebastián"]

  const NombresFemeninos: seq<string> := [
    "María", "Ana", "Laura", "Sofía", "Valentina",
    "Lucía", "Paula", "Carla", "Julia", "Florencia",
    "Camila", "Victoria", "Gabriela", "Carolina", "Mariana"]

  const ApellidosArgentinos: seq<string> := [
    "González", "Rodríguez", "García", "Fernández", "López",
    "Martínez", "Pérez", "Sánchez", "Romero", "Torres",
    "Díaz", "Álvarez", "Gómez", "Ruiz", "Hernández",
    "Moreno", "Ramírez", "Castro", "Ortiz", "Silva"]

  /** One `Math.random()` result. */
  type Draw = r: real | 0.0 <= r < 1.0

  /** `Math.floor(Math.random() * n)`: an index below n. */
  function Pick(r: Draw, n: nat): (i: nat)
    requires n > 0
    ensures i < n
  {
    var x := r * (n as real);
    assert 0.0 <= x < n as real;
    x.Floor
  }

  /** The class `\d`: ASCII digits only. */
  predicate IsAsciiDigit(c: char)
  {
    '0' <= c <= '9'
  }

  /** validateDNI: `/^\d{7,8}$/`, seven or eight ASCII digits and nothing
      else. */
  function ValidateDni(dni: string): (ok: bool)
    ensures ok <==> 7 <= |dni| <= 8 && forall k :: 0 <= k < |dni| ==> IsAsciiDigit(dni[k])
  {
    JsText.MatchesRepeatIff(dni, IsAsciiDigit, 7, Some(8));
    JsText.MatchesRepeat(dni, IsAsciiDigit, 7, Some(8))
  }

  /** Chronological order on (year, month, day). */
  predicate OnOrBefore(a: Date, b: Date)
  {
    a.year < b.year || (a.year == b.year && (a.month < b.month || (a.month == b.month && a.day <= b.day)))
  }

  /** The n-th anniversary of a birth date: same month and day, n years on. */
  function Anniversary(birth: Date, n: int): Date
  {
    Date(birth.year + n, birth.month, birth.day)
  }

  /** n full years have passed on `today`: the n-th anniversary has been
      reached and the next one has not. */
  predicate CompletedYears(birth: Date, today: Date, n: int)
  {
    OnOrBefore(Anniversary(birth, n), today) && !OnOrBefore(Anniversary(birth, n + 1), today)
  }

  /** There is exactly one such n. */
  lemma CompletedYearsUnique(birth: Date, today: Date, n: int, m: int)
    requires CompletedYears(birth, today, n) && CompletedYears(birth, today, m)
    ensures n == m
  {
  }

  /** The closed form: the difference of the years, one less while today's
      (month, day) is before the birthday's. */
  lemma CompletedYearsClosedForm(birth: Date, today: Date, n: int)
    ensures CompletedYears(birth, today, n) <==>
      n == today.year - birth.year -
           (if today.month < birth.month || (today.month == birth.month && today.day < birth.day) then 1 else 0)
  {
  }

  /** calculateAge: the year difference, then `age--` before the birthday;
      NaN (None) for an unparsable date. */
  method CalculateAge(parse: DateParser, fechaNacimiento: string, today: Date) returns (age: Option<int>)
    ensures age.None? <==> parse(fechaNacimiento).None?
    ensures age.Some? ==> CompletedYears(parse(fechaNacimiento).value, today, age.value)
  {
    var parsed := parse(fechaNacimiento);
    if parsed.None? {
      return None;
    }
    var birthDate := parsed.value;
    var years := today.year - birthDate.year;
    var monthDiff := today.month - birthDate.month;
    if monthDiff < 0 || (monthDiff == 0 && today.day < birthDate.day) {
      years := years - 1;
    }
    age := Some(years);
  }

  /** validateAge: adult exactly when the eighteenth birthday is on or before
      today; an unparsable date compares NaN and is refused. */
  function ValidateAge(parse: DateParser, fechaNacimiento: string, today: Date): (ok: bool)
    ensures ok <==> parse(fechaNacimiento).Some? && OnOrBefore(Anniversary(parse(fechaNacimiento).value, 18), today)
  {
    match parse(fechaNacimiento)
    case None => false
    case Some(birthDate) =>
      var age := today.year - birthDate.year;
      var monthDiff := today.month - birthDate.month;
      if monthDiff < 0 || (monthDiff == 0 && today.day < birthDate.day) then age - 1 >= 18 else age >= 18
  }

  /** For the same today, validateAge holds exactly when calculateAge is at
      least 18. */
  lemma ValidateAgeMatchesCalculateAge(parse: DateParser, fechaNacimiento: string, today: Date, age: int)
    requires parse(fechaNacimiento).Some? && CompletedYears(parse(fechaNacimiento).value, today, age)
    ensures ValidateAge(parse, fechaNacimiento, today) <==> age >= 18
  {
  }

  /** `Math.floor(Math.random() * 47) + 18`: an age in [18, 64]. */
  function AgeFromDraw(r: Draw): (edad: int)
    ensures 18 <= edad <= 64
  {
    Pick(r, 47) + 18
  }

  /** The documented "age > 18" is not what the generator guarantees. The
      lowest age draw gives age 18, and month and day draws of 11/12 and
      27/28 give the birth date text `<currentYear - 18>-12-28`. On
      1 January the person born on that day has completed only 17 years,
      and validateAge rejects the text under any parser that reads it as a
      December date of that year. */
  lemma YoungestDrawCanBeMinor(currentYear: int, parse: DateParser)
    ensures AgeFromDraw(0.0) == 18
    ensures GenerateBirthDate(AgeFromDraw(0.0), currentYear, 11.0 / 12.0, 27.0 / 28.0)
         == Numerals.IntToString(currentYear - 18, 10) + "-12-28"
    ensures CompletedYears(Date(currentYear - 18, 11, 28), Date(currentYear, 0, 1), 17)
    ensures var text := Numerals.IntToString(currentYear - 18, 10) + "-12-28";
      parse(text).Some? && parse(text).value.year == currentYear - 18 && parse(text).value.month == 11
      ==> !ValidateAge(parse, text, Date(currentYear, 0, 1))
  {
    assert Pick(11.0 / 12.0, 12) == 11;
    assert Pick(27.0 / 28.0, 28) == 27;
    assert TwoDigits(12) == "12";
    assert TwoDigits(28) == "28";
  }

  /** The two characters `String(n).padStart(2, '0')` prints for n below 100
      (TwoDigitsIsPaddedString shows the two agree). */
  function TwoDigits(n: nat): (s: string)
    requires n < 100
    ensures |s| == 2 && IsAsciiDigit(s[0]) && IsAsciiDigit(s[1])
    ensures 10 * DigitValueOf(s[0]) + DigitValueOf(s[1]) == n
  {
    DecimalDigitIsAscii(Numerals.DigitChar(n / 10));
    DecimalDigitIsAscii(Numerals.DigitChar(n % 10));
    [Numerals.DigitChar(n / 10), Numerals.DigitChar(n % 10)]
  }

  /** The JavaScript spelling: decimal `String(n)` left-padded with '0'. */
  lemma TwoDigitsIsPaddedString(n: nat)
    requires n < 100
    ensures Numerals.PadStart(Numerals.NatToString(n, 10), 2, '0') == TwoDigits(n)
  {
    assert n == (n / 10) * 10 + n % 10;
    Numerals.PadTwoDigits(n / 10, n % 10, 10);
  }

  function DigitValueOf(c: char): nat
    requires IsAsciiDigit(c)
  {
    (c as int) - ('0' as int)
  }

  /** A radix-10 digit of the printer is an ASCII digit of the same value. */
  lemma DecimalDigitIsAscii(c: char)
    requires Numerals.IsDigitChar(c, 10)
    ensures IsAsciiDigit(c) && DigitValueOf(c) == Numerals.DigitValue(c)
  {
  }

  /** A two-digit field with a value in [lo, hi]. */
  predicate TwoDigitField(f: string, lo: nat, hi: nat)
  {
    |f| == 2 && IsAsciiDigit(f[0]) && IsAsciiDigit(f[1]) && lo <= 10 * DigitValueOf(f[0]) + DigitValueOf(f[1]) <= hi
  }

  /** generateBirthDate: `${birthYear}-${month}-${day}` with the birth year
      the current year minus the age, a month 01-12 and a day 01-28. */
  function GenerateBirthDate(edad: int, currentYear: int, monthDraw: Draw, dayDraw: Draw): (s: string)
    ensures var y := Numerals.IntToString(currentYear - edad, 10);
      |s| == |y| + 6 && s[..|y|] == y && s[|y|] == '-' && s[|y| + 3] == '-' &&
      TwoDigitField(s[|y| + 1..|y| + 3], 1, 12) && TwoDigitField(s[|y| + 4..], 1, 28)
  {
    var y := Numerals.IntToString(currentYear - edad, 10);
    var month := TwoDigits(Pick(monthDraw, 12) + 1);
    var day := TwoDigits(Pick(dayDraw, 28) + 1);
    var s := y + "-" + month + "-" + day;
    assert s[|y| + 1..|y| + 3] == month && s[|y| + 4..] == day;
    s
  }

  /** The DNI ranges by generation, from the birth year. */
  predicate InBracket(birthYear: int, n: int)
  {
    if birthYear < 1970 then 5000000 <= n < 15000000
    else if birthYear < 1980 then 15000000 <= n < 25000000
    else if birthYear < 1990 then 25000000 <= n < 32000000
    else if birthYear < 2000 then 32000000 <= n < 40000000
    else 40000000 <= n < 45000000
  }

  lemma PowersOfTen()
    ensures Numerals.Pow(10, 6) == 1000000 && Numerals.Pow(10, 7) == 10000000 && Numerals.Pow(10, 8) == 100000000
  {
    assert Numerals.Pow(10, 1) == 10;
    assert Numerals.Pow(10, 2) == 100;
    assert Numerals.Pow(10, 3) == 1000;
    assert Numerals.Pow(10, 4) == 10000;
    assert Numerals.Pow(10, 5) == 100000;
  }

  /** Every number of the brackets prints as seven or eight decimal digits. */
  lemma BracketNumbersAreValidDnis(birthYear: int, n: nat)
    requires InBracket(birthYear, n)
    ensures ValidateDni(Numerals.NatToString(n, 10))
  {
    PowersOfTen();
    if n < 10000000 {
      Numerals.NatToStringLength(n, 10, 7);
    } else {
      Numerals.NatToStringLength(n, 10, 8);
    }
    var s := Numerals.NatToString(n, 10);
    forall k | 0 <= k < |s|
      ensures IsAsciiDigit(s[k])
    {
      DecimalDigitIsAscii(s[k]);
    }
  }

  /** generateDNI: pick base and range by birth year, add a random offset
      below the range, print in decimal. */
  method GenerateDni(edad: int, currentYear: int, r: Draw) returns (dni: string)
    ensures ValidateDni(dni)
    ensures forall k :: 0 <= k < |dni| ==> Numerals.IsDigitChar(dni[k], 10)
    ensures InBracket(currentYear - edad, Numerals.ValueOf(dni, 10))
  {
    var birthYear := currentYear - edad;
    var base: nat;
    var range: nat;
    if birthYear < 1970 {
      base, range := 5000000, 10000000;
    } else if birthYear < 1980 {
      base, range := 15000000, 10000000;
    } else if birthYear < 1990 {
      base, range := 25000000, 7000000;
    } else if birthYear < 2000 {
      base, range := 32000000, 8000000;
    } else {
      base, range := 40000000, 5000000;
    }
    var n := base + Pick(r, range);
    dni := Numerals.NatToString(n, 10);
    Numerals.ValueOfNatToString(n, 10);
    BracketNumbersAreValidDnis(birthYear, n);
  }

  /** generate: a name from the list the sex draw selects, a surname, an age
      in [18, 64], the birth date and the DNI, and the nationality
      'Argentina'. generateBirthDate and generateDNI each read the clock, so
      each gets its own current year: the two agree except across a New
      Year's midnight between the two readings. */
  method Generate(birthDateYear: int, dniYear: int, sexDraw: Draw, nameDraw: Draw, surnameDraw: Draw,
                  ageDraw: Draw, monthDraw: Draw, dayDraw: Draw, dniDraw: Draw) returns (d: MockDniData)
    ensures d.nacionalidad == "Argentina"
    ensures d.nombre in (if sexDraw > 0.5 then NombresFemeninos else NombresMasculinos)
    ensures d.apellido in ApellidosArgentinos
    ensures d.fechaNacimiento == GenerateBirthDate(AgeFromDraw(ageDraw), birthDateYear, monthDraw, dayDraw)
    ensures ValidateDni(d.dni)
    ensures forall k :: 0 <= k < |d.dni| ==> Numerals.IsDigitChar(d.dni[k], 10)
    ensures InBracket(dniYear - AgeFromDraw(ageDraw), Numerals.ValueOf(d.dni, 10))
  {
    var isFemenino := sexDraw > 0.5;
    var nombres := if isFemenino then NombresFemeninos else NombresMasculinos;
    var nombre := nombres[Pick(nameDraw, |nombres|)];
    var apellido := ApellidosArgentinos[Pick(surnameDraw, |ApellidosArgentinos|)];
    var edad := AgeFromDraw(ageDraw);
    var fechaNacimiento := GenerateBirthDate(edad, birthDateYear, monthDraw, dayDraw);
    var dni := GenerateDni(edad, dniYear, dniDraw);
    d := MockDniData(nombre, apellido, dni, fechaNacimiento, "Argentina");
  }
}
