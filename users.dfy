/** The user record of backend/models/User.js as the attendance rules see it: its role
    enum with default, and the employee-facing id `EMP` + zero-padded sequence number. */
module Users {
  import opened Wrappers
  import opened AttendanceModel

  datatype Role = Employee | Manager

  function RoleName(r: Role): (name: string)
    ensures name in ["employee", "manager"]
    ensures name == "employee" <==> r == Employee
  {
    match r
    case Employee => "employee"
    case Manager => "manager"
  }

  const DefaultRole: Role := Employee

  /** The schema's handling of the `role` path: absent gives the default `employee`,
      one of the enum strings gives that role, anything else fails validation. */
  function RoleFromInput(given: Option<string>): (r: Result<Role, string>)
    ensures given == None ==> r == Ok(Employee)
    ensures r.Ok? <==> (given == None || given.value == "employee" || given.value == "manager")
    ensures r.Ok? && given.Some? ==> RoleName(r.value) == given.value
  {
    match given
    case None => Ok(DefaultRole)
    case Some(s) =>
      if s == "employee" then Ok(Employee)
      else if s == "manager" then Ok(Manager)
      else Err("`" + s + "` is not a valid enum value for path `role`.")
  }

  datatype User = User(
    id: UserId,
    name: string,
    email: string,
    role: Role,
    employeeId: string,
    department: string)

  // ---------------------------------------------------------------------------
  // Decimal strings

  predicate IsDigit(c: char) {
    '0' <= c <= '9'
  }

  predicate IsDigits(s: string) {
    forall i :: 0 <= i < |s| ==> IsDigit(s[i])
  }

  function DigitChar(d: int): (c: char)
    requires 0 <= d <= 9
    ensures IsDigit(c)
  {
    (('0' as int) + d) as char
  }

  function DigitValue(c: char): int
    requires IsDigit(c)
  {
    c as int - '0' as int
  }

  /** `n.toString()` for a whole number: its decimal digits, without leading zeros. */
  function DecimalString(n: nat): (s: string)
    ensures |s| >= 1 && IsDigits(s)
    ensures |s| > 1 ==> s[0] != '0'
    decreases n
  {
    if n < 10 then [DigitChar(n)] else DecimalString(n / 10) + [DigitChar(n % 10)]
  }

  /** The number a string of decimal digits denotes (leading zeros allowed). */
  function ParseDecimal(s: string): nat
    requires IsDigits(s)
  {
    if s == [] then 0 else ParseDecimal(s[..|s| - 1]) * 10 + DigitValue(s[|s| - 1])
  }

  /** Reading back the decimal string of n gives n. */
  lemma {:induction false} DecimalRoundTrip(n: nat)
    ensures ParseDecimal(DecimalString(n)) == n
    decreases n
  {
    var s := DecimalString(n);
    if n >= 10 {
      assert s[..|s| - 1] == DecimalString(n / 10);
      DecimalRoundTrip(n / 10);
    } else {
      assert s[..|s| - 1] == [];
    }
  }

  function Pow10(k: nat): nat {
    if k == 0 then 1 else 10 * Pow10(k - 1)
  }

  /** n has at most k digits exactly when n < 10^k. */
  lemma {:induction false} DecimalLength(n: nat, k: nat)
    requires k >= 1
    ensures |DecimalString(n)| <= k <==> n < Pow10(k)
    decreases n
  {
    if n >= 10 {
      if k == 1 {
        assert Pow10(1) == 10;
      } else {
        DecimalLength(n / 10, k - 1);
      }
    } else {
      assert Pow10(k) >= 10 by { PowAtLeastTen(k); }
    }
  }

  lemma {:induction false} PowAtLeastTen(k: nat)
    requires k >= 1
    ensures Pow10(k) >= 10
  {
    if k > 1 {
      PowAtLeastTen(k - 1);
    }
  }

  function Repeat(c: char, n: nat): (s: string)
    ensures |s| == n && forall i :: 0 <= i < n ==> s[i] == c
  {
    if n == 0 then [] else [c] + Repeat(c, n - 1)
  }

  /** Leading zeros do not change the number. */
  lemma {:induction false} LeadingZeros(k: nat, s: string)
    requires IsDigits(s)
    ensures IsDigits(Repeat('0', k) + s)
    ensures ParseDecimal(Repeat('0', k) + s) == ParseDecimal(s)
    decreases |s|
  {
    var z := Repeat('0', k);
    if s == [] {
      assert z + s == z;
      ZerosParse(k);
    } else {
      var t := z + s;
      assert t[..|t| - 1] == z + s[..|s| - 1];
      LeadingZeros(k, s[..|s| - 1]);
    }
  }

  lemma {:induction false} ZerosParse(k: nat)
    ensures IsDigits(Repeat('0', k)) && ParseDecimal(Repeat('0', k)) == 0
  {
    if k > 0 {
      var z := Repeat('0', k);
      assert z[..k - 1] == Repeat('0', k - 1);
      ZerosParse(k - 1);
    }
  }

  /** `s.padStart(width, fill)` for a one-character fill: fill characters in front up to
      the width, and s itself untouched at the end. */
  function PadStart(s: string, width: nat, fill: char): (r: string)
    ensures |r| == if |s| >= width then |s| else width
    ensures r[|r| - |s|..] == s
    ensures forall i :: 0 <= i < |r| - |s| ==> r[i] == fill
  {
    if |s| >= width then s else Repeat(fill, width - |s|) + s
  }

  // ---------------------------------------------------------------------------
  // Employee ids

  const EmployeeIdPrefix: string := "EMP"

  /** `generateEmployeeId` given the current number of users: `EMP` then count + 1,
      padded with zeros to at least three digits. */
  function GenerateEmployeeId(count: nat): (id: string)
    ensures |id| >= 6 && id[..3] == EmployeeIdPrefix
  {
    EmployeeIdPrefix + PadStart(DecimalString(count + 1), 3, '0')
  }

  /** The id is `EMP` followed by digits that read back as count + 1; they are the full
      decimal form of count + 1 behind zero padding; the id is six characters long
      exactly when count + 1 is at most 999. */
  lemma EmployeeIdFormat(count: nat)
    ensures var id := GenerateEmployeeId(count);
      && id[..3] == "EMP"
      && IsDigits(id[3..]) && ParseDecimal(id[3..]) == count + 1
      && id[|id| - |DecimalString(count + 1)|..] == DecimalString(count + 1)
      && |id| >= 6
      && (|id| == 6 <==> count + 1 <= 999)
  {
    EmployeeIdDigits(count);
    EmployeeIdLength(count);
  }

  /** The digits behind `EMP` read back as count + 1. */
  lemma EmployeeIdDigits(count: nat)
    ensures var id := GenerateEmployeeId(count);
      id[..3] == "EMP" && IsDigits(id[3..]) && ParseDecimal(id[3..]) == count + 1
  {
    var digits := DecimalString(count + 1);
    var id := GenerateEmployeeId(count);
    var suffix := PadStart(digits, 3, '0');
    var k := if |digits| >= 3 then 0 else 3 - |digits|;
    assert id[..3] == "EMP" && id[3..] == suffix;
    assert suffix == Repeat('0', k) + digits;
    LeadingZeros(k, digits);
    DecimalRoundTrip(count + 1);
  }

  /** The id ends in the decimal form of count + 1 and has six characters exactly when
      that number has at most three digits. */
  lemma EmployeeIdLength(count: nat)
    ensures var id := GenerateEmployeeId(count);
      && id[|id| - |DecimalString(count + 1)|..] == DecimalString(count + 1)
      && |id| >= 6
      && (|id| == 6 <==> count + 1 <= 999)
  {
    var digits := DecimalString(count + 1);
    var id := GenerateEmployeeId(count);
    var suffix := PadStart(digits, 3, '0');
    assert id[3..] == suffix;
    assert id[|id| - |digits|..] == suffix[|suffix| - |digits|..];
    DecimalLength(count + 1, 3);
    assert Pow10(3) == 1000;
  }

  /** Different user counts give different ids. */
  lemma EmployeeIdInjective(a: nat, b: nat)
    requires GenerateEmployeeId(a) == GenerateEmployeeId(b)
    ensures a == b
  {
    EmployeeIdFormat(a);
    EmployeeIdFormat(b);
  }

  /** The first ids handed out. */
  lemma EmployeeIdExamples()
    ensures GenerateEmployeeId(0) == "EMP001"
    ensures GenerateEmployeeId(41) == "EMP042"
    ensures GenerateEmployeeId(999) == "EMP1000"
  {
    assert DecimalString(1) == "1";
    assert DecimalString(42) == "42" by { assert DecimalString(4) == "4"; }
    assert DecimalString(1000) == "1000" by {
      assert DecimalString(1) == "1";
      assert DecimalString(10) == "10";
      assert DecimalString(100) == "100";
    }
  }
}
