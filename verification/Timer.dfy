/** Durations: `fs_mod_timer_parse_time` (src/mod/fs_mod_timer.c:178-220). */
module Timer {
  import opened Decimal

  const MAX_LONG_LONG := 0x7FFF_FFFF_FFFF_FFFF

  /** A product kept in a `long long`; Overflow once an intermediate value does not fit. */
  datatype Number = Number(value: nat) | Overflow

  /** What parsing a duration gives. */
  datatype Parsed = Milliseconds(n: Number) | Rejected

  datatype Unit = Plain | Ms | Second | Minute | Hour | Day

  function Suffix(u: Unit): string {
    match u
    case Plain => ""
    case Ms => "ms"
    case Second => "s"
    case Minute => "min"
    case Hour => "hour"
    case Day => "day"
  }

  function MillisecondsOf(u: Unit): nat {
    match u
    case Plain => 1
    case Ms => 1
    case Second => 1000
    case Minute => 60_000
    case Hour => 3_600_000
    case Day => 86_400_000
  }

  /** A duration as written: a number and a unit. */
  function Print(n: nat, u: Unit): string {
    Numeral(n) + Suffix(u)
  }

  /** The exact product, if it fits. */
  function Exact(n: nat): Number {
    if n <= MAX_LONG_LONG then Number(n) else Overflow
  }

  /** The buffer's string ends at this terminator. */
  ghost predicate EndsAt(s: string, end: nat) {
    end < |s| && s[end] == '\0' && forall i :: 0 <= i < end ==> s[i] != '\0'
  }

  /** Number of digits a string begins with. */
  function DigitsLength(s: string): (n: nat)
    ensures n <= |s| && AllDigits(s[..n]) && (n < |s| ==> !IsDigit(s[n]))
  {
    if s == [] || !IsDigit(s[0]) then 0
    else
      var n := 1 + DigitsLength(s[1..]);
      assert s[..n] == [s[0]] + s[1..][..n - 1];
      n
  }

  lemma {:induction false} DigitsLengthIs(digits: string, rest: string)
    requires AllDigits(digits) && (rest != [] ==> !IsDigit(rest[0]))
    ensures DigitsLength(digits + rest) == |digits|
  {
    if digits == [] {
      assert digits + rest == rest;
    } else {
      assert (digits + rest)[1..] == digits[1..] + rest;
      DigitsLengthIs(digits[1..], rest);
    }
  }

  /** A duration's meaning: its digits' value times its unit, or a rejection. */
  function Meaning(time: string): Parsed {
    var n := DigitsLength(time);
    var value, suffix := Value(time[..n]), time[n..];
    if suffix == "" then Milliseconds(Exact(value))
    else if suffix == "ms" then Milliseconds(Exact(value))
    else if suffix == "s" then Milliseconds(Exact(value * 1000))
    else if suffix == "min" then Milliseconds(Exact(value * 60_000))
    else if suffix == "hour" then Milliseconds(Exact(value * 3_600_000))
    else if suffix == "day" then Milliseconds(Exact(value * 86_400_000))
    else Rejected
  }

  /** Round trip: a printed duration means its number times its unit, when that fits. */
  lemma PrintedDuration(n: nat, u: Unit)
    ensures Meaning(Print(n, u)) == Milliseconds(Exact(n * MillisecondsOf(u)))
  {
    var s := Print(n, u);
    DigitsLengthIs(Numeral(n), Suffix(u));
    ValueOfNumeral(n);
    assert s[..|Numeral(n)|] == Numeral(n) && s[|Numeral(n)|..] == Suffix(u);
  }

  lemma PrintedForm(time: string, digits: string, u: Unit)
    requires AllDigits(digits) && time == digits + Suffix(u)
    ensures Meaning(time) == Milliseconds(Exact(Value(digits) * MillisecondsOf(u)))
  {
    hide Value;
    DigitsLengthIs(digits, Suffix(u));
    assert time[..|digits|] == digits && time[|digits|..] == Suffix(u);
  }

  /** The units, spelled out, and what they stand for. */
  lemma Spelled(n: nat)
    ensures Meaning(Numeral(n)) == Meaning(Numeral(n) + "ms") == Milliseconds(Exact(n))
    ensures Meaning(Numeral(n) + "s") == Milliseconds(Exact(n * 1000))
    ensures Meaning(Numeral(n) + "min") == Milliseconds(Exact(n * 60_000))
    ensures Meaning(Numeral(n) + "hour") == Milliseconds(Exact(n * 3_600_000))
    ensures Meaning(Numeral(n) + "day") == Milliseconds(Exact(n * 86_400_000))
  {
    hide Meaning, Numeral;
    assert Numeral(n) + "" == Numeral(n);
    PrintedDuration(n, Plain);
    PrintedDuration(n, Ms);
    PrintedDuration(n, Second);
    PrintedDuration(n, Minute);
    PrintedDuration(n, Hour);
    PrintedDuration(n, Day);
  }

  /** A number fits exactly if it is less than two to the power of 63. */
  lemma FitsLongLong(n: nat)
    ensures Exact(n) == if n < Power(2, 63) then Number(n) else Overflow
  {
    SmallPowers();
    PowerSum(16, 16);
    PowerSum(32, 16);
    PowerSum(48, 15);
  }

  lemma SmallPowers()
    ensures Power(2, 15) == 32768 && Power(2, 16) == 65536
  {
    assert Power(2, 4) == 16 && Power(2, 8) == 256 && Power(2, 12) == 4096;
  }

  lemma {:induction false} PowerSum(a: nat, b: nat)
    ensures Power(2, a + b) == Power(2, a) * Power(2, b)
  {
    if b > 0 {
      PowerSum(a, b - 1);
    }
  }

  /** Only digits followed by one of the units are accepted; the digits may be missing. */
  lemma AcceptedDurations(time: string)
    ensures Meaning(time) != Rejected <==>
            exists digits: string, u: Unit :: AllDigits(digits) && time == digits + Suffix(u)
  {
    hide Value, DigitsLength;
    var n := DigitsLength(time);
    var digits, suffix := time[..n], time[n..];
    assert time == digits + suffix;
    if Meaning(time) != Rejected {
      var u := if suffix == "" then Plain else if suffix == "ms" then Ms else if suffix == "s" then Second
               else if suffix == "min" then Minute else if suffix == "hour" then Hour else Day;
      assert suffix == Suffix(u);
    } else {
      forall digits: string, u: Unit | AllDigits(digits) && time == digits + Suffix(u)
        ensures false
      {
        PrintedForm(time, digits, u);
      }
    }
  }

  /** `strcmp` with a literal, from a position of a terminated buffer. */
  method Equals(a: array<char>, start: nat, literal: string, ghost end: nat) returns (r: bool)
    requires EndsAt(a[..], end) && start <= end && '\0' !in literal
    ensures r == (a[start..end] == literal)
  {
    var i := 0;
    while i < |literal| && a[start + i] == literal[i]
      invariant i <= |literal| && start + i <= end
      invariant forall k :: 0 <= k < i ==> a[start + k] == literal[k]
    {
      assert a[..][start + i] != '\0';
      i := i + 1;
    }
    assert forall k :: start <= k < end ==> a[..][k] != '\0';
    r := i == |literal| && a[start + i] == '\0';
    if !r && i < |literal| && start + i < end {
      assert a[start..end][i] != literal[i];
    }
  }

  /** `atoll`: the leading digits as a `long long`. */
  method Atoll(a: array<char>, ghost n: nat) returns (r: Number)
    requires n < a.Length && AllDigits(a[..n]) && !IsDigit(a[n])
    ensures r == Exact(Value(a[..n]))
  {
    r := Number(0);
    var i := 0;
    assert 0 < n ==> a[..n][0] == a[0];
    while IsDigit(a[i])
      invariant i <= n && (i < n ==> IsDigit(a[i]))
      invariant r == Exact(Value(a[..i]))
      decreases n - i
    {
      assert a[..i + 1][..i] == a[..i];
      assert a[..n][i] == a[i];
      r := Plus(Times(r, 10), a[i] as int - '0' as int);
      i := i + 1;
      assert i < n ==> a[..n][i] == a[i];
    }
  }

  function Times(x: Number, k: nat): Number {
    if x == Overflow || x.value * k > MAX_LONG_LONG then Overflow else Number(x.value * k)
  }

  function Plus(x: Number, k: nat): Number {
    if x == Overflow || x.value + k > MAX_LONG_LONG then Overflow else Number(x.value + k)
  }

  /** Factors that are multiplied in one by one overflow exactly when the product does. */
  lemma TimesExact(n: nat, k: nat)
    requires 0 < k
    ensures Times(Exact(n), k) == Exact(n * k)
  {
    assert n <= n * k;
  }

  /** The digits before the suffix, read with a terminator put in the suffix's place and taken out again. */
  method Cut(a: array<char>, sp: nat, c: char) returns (r: Number)
    requires sp < a.Length && AllDigits(a[..sp]) && a[sp] == c && !IsDigit(c)
    modifies a
    ensures a[..] == old(a[..])
    ensures r == Exact(Value(a[..sp]))
  {
    ghost var digits := a[..sp];
    a[sp] := '\0';
    assert a[..sp] == digits;
    r := Atoll(a, sp);
    a[sp] := c;
    assert a[..sp] == digits;
  }

  /**
   `fs_mod_timer_parse_time`: the number is read from the buffer itself, with the suffix
   cut off for a moment. `end` is where the buffer's terminator is.
   */
  method ParseTime(time: array<char>, ghost end: nat) returns (r: Parsed)
    requires EndsAt(time[..], end)
    modifies time
    ensures time[..] == old(time[..])
    ensures r == Meaning(time[..end])
  {
    hide Value, DigitsLength;
    ghost var text := time[..end];
    var sp := 0;
    while time[sp] != '\0' && IsDigit(time[sp])
      invariant sp <= end && AllDigits(time[..sp])
      decreases end - sp
    {
      assert time[..][sp] == time[sp];
      sp := sp + 1;
    }
    assert time[..][sp] == time[sp];
    DigitsLengthIs(text[..sp], text[sp..]);
    assert text == text[..sp] + text[sp..] && text[..sp] == time[..sp];
    assert text[sp..] == time[sp..end];
    if time[sp] == '\0' {
      var n := Atoll(time, sp);
      return Milliseconds(n);
    }
    var ms := Equals(time, sp, "ms", end);
    if ms {
      var n := Cut(time, sp, 'm');
      return Milliseconds(n);
    }
    var s := Equals(time, sp, "s", end);
    if s {
      var n := Cut(time, sp, 's');
      TimesExact(Value(text[..sp]), 1000);
      return Milliseconds(Times(n, 1000));
    }
    var min := Equals(time, sp, "min", end);
    if min {
      var n := Cut(time, sp, 'm');
      TimesExact(Value(text[..sp]), 1000);
      TimesExact(Value(text[..sp]) * 1000, 60);
      return Milliseconds(Times(Times(n, 1000), 60));
    }
    var hour := Equals(time, sp, "hour", end);
    if hour {
      var n := Cut(time, sp, 'h');
      TimesExact(Value(text[..sp]), 1000);
      TimesExact(Value(text[..sp]) * 1000, 60);
      TimesExact(Value(text[..sp]) * 1000 * 60, 60);
      return Milliseconds(Times(Times(Times(n, 1000), 60), 60));
    }
    var day := Equals(time, sp, "day", end);
    if day {
      var n := Cut(time, sp, 'd');
      TimesExact(Value(text[..sp]), 1000);
      TimesExact(Value(text[..sp]) * 1000, 60);
      TimesExact(Value(text[..sp]) * 1000 * 60, 60);
      TimesExact(Value(text[..sp]) * 1000 * 60 * 60, 24);
      return Milliseconds(Times(Times(Times(Times(n, 1000), 60), 60), 24));
    }
    return Rejected;
  }
}
