/** The student-id hash, written twice: once in Python for the backend and
    once in JavaScript for the frontend. Both compute h <- 31*h + code per
    character; Python's integers are unbounded and its `h & h` is the
    identity, while JavaScript's `<<` and `&` cut every step to a signed
    32-bit integer. Python hashes code points, JavaScript UTF-16 code
    units. */
module StudentHash {

  const TwoTo31: int := 0x8000_0000
  const TwoTo32: int := 0x1_0000_0000

  // ---------------------------------------------------------------------
  // Decimal text, as `str(int)` in Python and `Number.toString()` in
  // JavaScript

  function Digit(n: nat): char
    requires n < 10
  {
    "0123456789"[n]
  }

  predicate IsDigit(c: char) {
    '0' <= c <= '9'
  }

  predicate AllDigits(s: string) {
    forall i :: 0 <= i < |s| ==> IsDigit(s[i])
  }

  /** The decimal digits of n, without leading zeros. */
  function NatToString(n: nat): (s: string)
    ensures |s| >= 1 && AllDigits(s)
    ensures |s| > 1 ==> s[0] != '0'
  {
    if n < 10 then [Digit(n)] else NatToString(n / 10) + [Digit(n % 10)]
  }

  /** The decimal text of n, with a leading '-' when it is negative. */
  function IntToString(n: int): (s: string)
    ensures |s| >= 1
    ensures n >= 0 ==> AllDigits(s)
    ensures n < 0 ==> s[0] == '-' && AllDigits(s[1..])
  {
    if n < 0 then "-" + NatToString(-n) else NatToString(n)
  }

  /** The value of a string of decimal digits. */
  function ParseNat(s: string): int
    requires AllDigits(s)
  {
    if s == [] then 0 else 10 * ParseNat(s[..|s| - 1]) + (s[|s| - 1] as int - '0' as int)
  }

  /** The value of decimal text with an optional leading '-'. */
  function ParseInt(s: string): int
    requires |s| >= 1 && if s[0] == '-' then AllDigits(s[1..]) else AllDigits(s)
  {
    if s[0] == '-' then -ParseNat(s[1..]) else ParseNat(s)
  }

  lemma {:induction false} NatToStringRoundTrip(n: nat)
    ensures ParseNat(NatToString(n)) == n
    decreases n
  {
    if n >= 10 {
      NatToStringRoundTrip(n / 10);
      var s := NatToString(n);
      assert s[..|s| - 1] == NatToString(n / 10);
    }
  }

  /** Reading the decimal text back gives the number: no two numbers share a
      text. */
  lemma IntToStringRoundTrip(n: int)
    ensures ParseInt(IntToString(n)) == n
  {
    var s := IntToString(n);
    if n < 0 {
      var t := NatToString(-n);
      NatToStringRoundTrip(-n);
      assert s == "-" + t;
      assert s[0] == '-' && s[1..] == t;
      assert ParseInt(s) == -ParseNat(t);
    } else {
      NatToStringRoundTrip(n);
      assert s == NatToString(n);
      assert IsDigit(s[0]);
      assert ParseInt(s) == ParseNat(s);
    }
  }

  lemma IntToStringInjective(a: int, b: int)
    ensures IntToString(a) == IntToString(b) <==> a == b
  {
    IntToStringRoundTrip(a);
    IntToStringRoundTrip(b);
  }

  // ---------------------------------------------------------------------
  // The Python hash (backend)

  /** What the backend receives: a student id arrives as text or as a
      number. */
  datatype StudentId = Text(text: string) | Number(n: int)

  /** `str(student_id)`. */
  function Str(id: StudentId): string {
    match id
    case Text(t) => t
    case Number(n) => IntToString(n)
  }

  /** `ord` of every character. */
  function Codes(s: string): seq<int>
  {
    seq(|s|, i requires 0 <= i < |s| => s[i] as int)
  }

  /** The unbounded fold h <- 31*h + c over the codes, left to right. */
  function Fold31(codes: seq<int>): (h: int)
    ensures (forall i :: 0 <= i < |codes| ==> codes[i] >= 0) ==> h >= 0
  {
    if codes == [] then 0 else 31 * Fold31(codes[..|codes| - 1]) + codes[|codes| - 1]
  }

  /** The backend's hash of a text. */
  function PyHash(s: string): int {
    Fold31(Codes(s))
  }

  /** `hash_student_id`: the loop over `str(student_id)`. `(h << 5) - h` is
      32*h - h on Python integers, and `h & h` is h. */
  method HashStudentId(studentId: StudentId) returns (hashed: string)
    ensures hashed == IntToString(PyHash(Str(studentId)))
  {
    var text := Str(studentId);
    var hashValue := 0;
    for i := 0 to |text|
      invariant hashValue == Fold31(Codes(text)[..i])
    {
      assert Codes(text)[..i + 1][..i] == Codes(text)[..i];
      hashValue := (hashValue * 32 - hashValue) + text[i] as int;
    }
    assert Codes(text)[..|text|] == Codes(text);
    hashed := IntToString(hashValue);
  }

  /** `hash_employee_id`, the same loop without `str()`. */
  method HashEmployeeId(employeeId: string) returns (hashed: string)
    ensures hashed == IntToString(PyHash(employeeId))
  {
    var hashValue := 0;
    for i := 0 to |employeeId|
      invariant hashValue == Fold31(Codes(employeeId)[..i])
    {
      assert Codes(employeeId)[..i + 1][..i] == Codes(employeeId)[..i];
      hashValue := (hashValue * 32 - hashValue) + employeeId[i] as int;
    }
    assert Codes(employeeId)[..|employeeId|] == Codes(employeeId);
    hashed := IntToString(hashValue);
  }

  /** The backend hash is never negative, is "0" for the empty text, and
      grows by one factor of 31 per character. */
  lemma PyHashFacts(s: string, c: char)
    ensures PyHash(s) >= 0
    ensures PyHash([]) == 0 && IntToString(PyHash([])) == "0"
    ensures PyHash(s + [c]) == 31 * PyHash(s) + c as int
  {
    assert Codes(s + [c])[..|s|] == Codes(s);
  }

  /** A number and its decimal text hash alike. */
  lemma NumberHashesAsText(n: int)
    ensures PyHash(Str(Number(n))) == PyHash(Str(Text(IntToString(n))))
  {
  }

  // ---------------------------------------------------------------------
  // The JavaScript hash (frontend)

  /** ECMAScript ToInt32: the value modulo 2^32, read as a signed 32-bit
      integer. */
  function ToInt32(x: int): (r: int)
    ensures -TwoTo31 <= r < TwoTo31
    ensures (x - r) % TwoTo32 == 0
  {
    var m := x % TwoTo32;
    if m >= TwoTo31 then m - TwoTo32 else m
  }

  /** The UTF-16 code units of a text: `length` and `charCodeAt` see these. */
  function Utf16(s: string): (units: seq<int>)
    ensures forall i :: 0 <= i < |units| ==> 0 <= units[i] < 0x1_0000
    ensures (forall i :: 0 <= i < |s| ==> (s[i] as int) < 0x1_0000) ==> units == Codes(s)
  {
    if s == [] then []
    else
      var c := s[|s| - 1] as int;
      Utf16(s[..|s| - 1]) + (if c < 0x1_0000 then [c] else [0xD800 + (c - 0x1_0000) / 0x400, 0xDC00 + (c - 0x1_0000) % 0x400])
  }

  /** One step: `hash << 5` cuts hash to 32 bits and shifts within 32 bits,
      the subtraction and addition are exact on doubles of this size, and
      `hash & hash` cuts the sum to 32 bits. */
  function JsStep(h: int, c: int): int {
    ToInt32(ToInt32(ToInt32(h) * 32) - h + c)
  }

  /** The frontend's fold over the code units, left to right. */
  function JsFold(units: seq<int>): (h: int)
    ensures -TwoTo31 <= h < TwoTo31
  {
    if units == [] then 0 else JsStep(JsFold(units[..|units| - 1]), units[|units| - 1])
  }

  /** `hashStudentId` in hash.js. */
  method JsHashStudentId(studentId: string) returns (hashed: string)
    ensures hashed == IntToString(JsFold(Utf16(studentId)))
  {
    var units := Utf16(studentId);
    var hash := 0;
    for i := 0 to |units|
      invariant hash == JsFold(units[..i])
    {
      assert units[..i + 1][..i] == units[..i];
      assert JsFold(units[..i + 1]) == JsStep(JsFold(units[..i]), units[i]);
      var code := units[i];
      ghost var before := hash;
      hash := ToInt32(ToInt32(hash) * 32) - hash + code;
      hash := ToInt32(hash);
      assert hash == JsStep(before, code);
    }
    assert units[..|units|] == units;
    hashed := IntToString(hash);
  }

  /** Numbers congruent modulo 2^32 have the same ToInt32. */
  lemma ToInt32Congruent(a: int, b: int, q: int)
    requires a == b + TwoTo32 * q
    ensures ToInt32(a) == ToInt32(b)
  {
    assert a % TwoTo32 == b % TwoTo32;
  }

  /** A step of the frontend is 31*h + c cut to 32 bits. */
  lemma JsStepWraps(h: int, c: int)
    ensures JsStep(h, c) == ToInt32(31 * h + c)
  {
    var a := ToInt32(h);
    var q1 := (h - a) / TwoTo32;
    assert h == a + TwoTo32 * q1;
    var b := ToInt32(a * 32);
    var q2 := (a * 32 - b) / TwoTo32;
    assert a * 32 == b + TwoTo32 * q2;
    ToInt32Congruent(31 * h + c, b - h + c, 32 * q1 + q2);
  }

  /** The frontend hash is the backend's fold cut to 32 bits, whatever the
      codes. */
  lemma {:induction false} JsWrapsFold(units: seq<int>)
    ensures JsFold(units) == ToInt32(Fold31(units))
  {
    if units != [] {
      var init := units[..|units| - 1];
      var c := units[|units| - 1];
      JsWrapsFold(init);
      var f := Fold31(init);
      var j := JsFold(init);
      var q := (f - j) / TwoTo32;
      assert f == j + TwoTo32 * q;
      JsStepWraps(j, c);
      ToInt32Congruent(31 * f + c, 31 * j + c, 31 * q);
    }
  }

  /** ToInt32 leaves exactly the signed 32-bit integers alone. */
  lemma ToInt32Identity(x: int)
    ensures ToInt32(x) == x <==> -TwoTo31 <= x < TwoTo31
  {
  }

  /** A prefix's fold never exceeds the whole fold when codes are not
      negative. */
  lemma {:induction false} FoldGrows(codes: seq<int>, k: nat)
    requires k <= |codes| && forall i :: 0 <= i < |codes| ==> codes[i] >= 0
    ensures Fold31(codes[..k]) <= Fold31(codes)
    decreases |codes| - k
  {
    if k < |codes| {
      var init := codes[..|codes| - 1];
      assert codes[..k] == init[..k];
      FoldGrows(init, k);
    } else {
      assert codes[..k] == codes;
    }
  }

  /** On text without characters beyond U+FFFF, the two hashes give the same
      string exactly when the backend's value stays below 2^31. */
  lemma HashesAgree(s: string)
    requires forall i :: 0 <= i < |s| ==> (s[i] as int) < 0x1_0000
    ensures IntToString(JsFold(Utf16(s))) == IntToString(PyHash(s)) <==> PyHash(s) < TwoTo31
  {
    JsWrapsFold(Codes(s));
    IntToStringInjective(JsFold(Codes(s)), PyHash(s));
    ToInt32Identity(PyHash(s));
  }

  /** The final backend value is below 2^31 exactly when every intermediate
      value is. */
  lemma FitsThroughout(s: string)
    ensures PyHash(s) < TwoTo31 <==> forall k :: 0 <= k <= |s| ==> Fold31(Codes(s)[..k]) < TwoTo31
  {
    if PyHash(s) < TwoTo31 {
      forall k | 0 <= k <= |s| ensures Fold31(Codes(s)[..k]) < TwoTo31 {
        FoldGrows(Codes(s), k);
      }
    }
    assert Codes(s)[..|s|] == Codes(s);
  }

  // ---------------------------------------------------------------------
  // Eight-digit student ids

  /** The smallest fold of n codes that are all at least '0'. */
  function DigitFloor(n: nat): int {
    if n == 0 then 0 else 31 * DigitFloor(n - 1) + '0' as int
  }

  lemma {:induction false} FoldAtLeastDigitFloor(codes: seq<int>)
    requires forall i :: 0 <= i < |codes| ==> codes[i] >= '0' as int
    ensures Fold31(codes) >= DigitFloor(|codes|)
  {
    if codes != [] {
      FoldAtLeastDigitFloor(codes[..|codes| - 1]);
    }
  }

  /** Student ids are eight digits, and every eight-digit id leaves the
      32-bit range on the backend: the two hashes never agree on one. */
  lemma EightDigitIdsDisagree(s: string)
    requires |s| == 8 && AllDigits(s)
    ensures PyHash(s) >= TwoTo31
    ensures IntToString(JsFold(Utf16(s))) != IntToString(PyHash(s))
  {
    FoldAtLeastDigitFloor(Codes(s));
    assert DigitFloor(8) == 1364625659904 by {
      assert DigitFloor(1) == 48;
      assert DigitFloor(2) == 1536;
      assert DigitFloor(3) == 47664;
      assert DigitFloor(4) == 1477632;
      assert DigitFloor(5) == 45806640;
      assert DigitFloor(6) == 1420005888;
      assert DigitFloor(7) == 44020182576;
    }
    HashesAgree(s);
  }

  /** The backend loop as its comment intends: every step cut to a signed
      32-bit integer, as the frontend does. */
  method HashStudentId32(studentId: StudentId) returns (hashed: string)
    ensures hashed == IntToString(ToInt32(PyHash(Str(studentId))))
  {
    var text := Str(studentId);
    var hashValue := 0;
    for i := 0 to |text|
      invariant hashValue == JsFold(Codes(text)[..i])
    {
      assert Codes(text)[..i + 1][..i] == Codes(text)[..i];
      JsStepWraps(hashValue, text[i] as int);
      hashValue := ToInt32((hashValue * 32 - hashValue) + text[i] as int);
    }
    assert Codes(text)[..|text|] == Codes(text);
    JsWrapsFold(Codes(text));
    hashed := IntToString(hashValue);
  }

  /** The 32-bit backend hash agrees with the frontend on every text without
      characters beyond U+FFFF. */
  lemma Hash32Agrees(s: string)
    requires forall i :: 0 <= i < |s| ==> (s[i] as int) < 0x1_0000
    ensures IntToString(ToInt32(PyHash(s))) == IntToString(JsFold(Utf16(s)))
  {
    JsWrapsFold(Codes(s));
  }
}
