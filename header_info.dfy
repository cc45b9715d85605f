/** The arithmetic behind the header text of a contact sheet
    (Decoder::GetVideoInfo in src/main.cpp): the duration shown as
    hours, minutes, seconds and hundredths, and the file size scaled to a unit. */
module HeaderInfo {
  import opened Base

  /** AV_TIME_BASE: durations are counted in microseconds. */
  const TimeBase: int := 1000000

  /** AV_NOPTS_VALUE, the container's marker for an unknown duration. */
  const NoPtsValue: int := -0x8000_0000_0000_0000

  /** The unit table `unit[]`. */
  const Units: seq<string> := ["KB", "MB", "GB", "TB"]

  /** One line of the header, before boost::format renders it. */
  datatype HeaderLine =
    | FileNameLine(path: string)
    | DurationLine(clock: Clock)
    | ResolutionLine(width: int, height: int)
    | FileSizeLine(size: real, unitIndex: nat)

  datatype Clock = Clock(hours: int, minutes: int, seconds: int, hundredths: int)

  /** Hundredths of a second that a clock reading stands for. */
  function TotalHundredths(c: Clock): int
  {
    ((c.hours * 60 + c.minutes) * 60 + c.seconds) * 100 + c.hundredths
  }

  /** The duration fields: add 5000 microseconds, then take seconds and
      microseconds apart with C++'s truncating `/` and `%`, and split the
      seconds into hours, minutes and seconds the same way. */
  function ClockOf(duration: int): (c: Clock)
    ensures (c.hours * 60 + c.minutes) * 60 + c.seconds == TruncDiv(duration + 5000, TimeBase)
    ensures Abs(c.minutes) < 60 && Abs(c.seconds) < 60 && Abs(c.hundredths) < 100
  {
    var d := duration + 5000;
    var secs0 := TruncDiv(d, TimeBase);
    var us := TruncRem(d, TimeBase);
    var mins0 := TruncDiv(secs0, 60);
    var secs := TruncRem(secs0, 60);
    var hours := TruncDiv(mins0, 60);
    var mins := TruncRem(mins0, 60);
    var hundredths := TruncDiv(100 * us, TimeBase);
    assert Abs(100 * us) < 100 * TimeBase;
    Clock(hours, mins, secs, hundredths)
  }

  /** For a duration that is not negative, the clock shows the duration rounded
      to the nearest hundredth of a second (halves round up): every field is
      non-negative and the reading is within 5000 microseconds of the duration. */
  lemma ClockRoundsToHundredths(duration: int)
    requires duration >= 0
    ensures var c := ClockOf(duration);
      && c.hours >= 0 && 0 <= c.minutes < 60 && 0 <= c.seconds < 60 && 0 <= c.hundredths < 100
      && TotalHundredths(c) == (duration + 5000) / 10000
      && TotalHundredths(c) * 10000 <= duration + 5000 < TotalHundredths(c) * 10000 + 10000
  {
    var d := duration + 5000;
    var c := ClockOf(duration);
    TruncMatchesEuclid(d, TimeBase);
    var secs0 := d / TimeBase;
    var us := d % TimeBase;
    TruncMatchesEuclid(secs0, 60);
    TruncMatchesEuclid(secs0 / 60, 60);
    TruncMatchesEuclid(100 * us, TimeBase);
    assert c.hundredths == (100 * us) / TimeBase;
    assert c.hundredths == us / 10000 by {
      HundredthsOfMicros(us);
    }
    assert (c.hours * 60 + c.minutes) * 60 + c.seconds == secs0;
    assert d == secs0 * TimeBase + us;
    assert TotalHundredths(c) == secs0 * 100 + us / 10000;
    SplitDivision(d, secs0, us);
  }

  lemma HundredthsOfMicros(us: int)
    requires 0 <= us < TimeBase
    ensures (100 * us) / TimeBase == us / 10000
  {
    var q := us / 10000;
    assert q * 10000 <= us < q * 10000 + 10000;
    assert q * TimeBase <= 100 * us < q * TimeBase + TimeBase;
  }

  lemma SplitDivision(d: int, secs0: int, us: int)
    requires d >= 0 && 0 <= us < TimeBase && d == secs0 * TimeBase + us
    ensures d / 10000 == secs0 * 100 + us / 10000
  {
    var q := us / 10000;
    assert q * 10000 <= us < q * 10000 + 10000;
    assert d == (secs0 * 100) * 10000 + us;
    assert (secs0 * 100 + q) * 10000 <= d < (secs0 * 100 + q) * 10000 + 10000;
  }

  /** 1024 raised to `n`, as a real. */
  function Pow1024(n: nat): real
  {
    if n == 0 then 1.0 else 1024.0 * Pow1024(n - 1)
  }

  /** `size` with unit `Units[unitIndex]` is the file size in kilobytes
      (`bytes / 1024`, integer division) scaled by dividing by 1024 as long as
      the value exceeds 1024, with the biggest unit as the last resort. */
  ghost predicate IsScaledSize(bytes: nat, size: real, unitIndex: nat)
  {
    && unitIndex < |Units|
    && size * Pow1024(unitIndex) == (bytes / 1024) as real
    && (unitIndex < |Units| - 1 ==> size <= 1024.0)
    && (unitIndex > 0 ==> size > 1.0)
  }

  /** The unit-selection loop as written (src/main.cpp:135-146): up to four divisions,
      so the index can reach 4, one past the end of `unit[]`, which src/main.cpp:150
      then reads. It does so exactly when the size in kilobytes exceeds 1024^4. */
  method ScaleFileSizeAsWritten(bytes: nat) returns (fileSize: real, unitIndex: nat)
    ensures unitIndex <= 4
    ensures fileSize * Pow1024(unitIndex) == (bytes / 1024) as real
    ensures unitIndex < 4 ==> fileSize <= 1024.0
    ensures unitIndex > 0 ==> fileSize > 1.0
    ensures unitIndex == |Units| <==> (bytes / 1024) as real > Pow1024(4)
  {
    fileSize := (bytes / 1024) as real;
    unitIndex := 0;
    while unitIndex < 4
      invariant unitIndex <= 4
      invariant fileSize * Pow1024(unitIndex) == (bytes / 1024) as real
      invariant unitIndex > 0 ==> fileSize > 1.0
    {
      if fileSize > 1024.0 {
        fileSize := fileSize / 1024.0;
      } else {
        break;
      }
      unitIndex := unitIndex + 1;
    }
    ExceedsPower(fileSize, unitIndex);
  }

  /** The loop with the cap the table calls for: at most three divisions, so
      the index always names an entry of `unit[]` and the last unit (TB)
      absorbs every larger size. */
  method ScaleFileSize(bytes: nat) returns (fileSize: real, unitIndex: nat)
    ensures IsScaledSize(bytes, fileSize, unitIndex)
  {
    fileSize := (bytes / 1024) as real;
    unitIndex := 0;
    while unitIndex < |Units| - 1
      invariant unitIndex <= |Units| - 1
      invariant fileSize * Pow1024(unitIndex) == (bytes / 1024) as real
      invariant unitIndex > 0 ==> fileSize > 1.0
    {
      if fileSize > 1024.0 {
        fileSize := fileSize / 1024.0;
      } else {
        break;
      }
      unitIndex := unitIndex + 1;
    }
  }

  /** The scaled reading is unique: the unit is fixed by the thresholds. */
  lemma {:induction false} ScaledSizeUnique(bytes: nat, s1: real, u1: nat, s2: real, u2: nat)
    requires IsScaledSize(bytes, s1, u1) && IsScaledSize(bytes, s2, u2)
    ensures u1 == u2 && s1 == s2
  {
    UnitOrder(bytes, s1, u1, s2, u2);
    UnitOrder(bytes, s2, u2, s1, u1);
    PowPositive(u1);
  }

  lemma UnitOrder(bytes: nat, s1: real, u1: nat, s2: real, u2: nat)
    requires IsScaledSize(bytes, s1, u1) && IsScaledSize(bytes, s2, u2)
    ensures u2 <= u1
  {
    if u1 < u2 {
      // s1 <= 1024 gives kb <= 1024^(u1+1) <= 1024^u2, while s2 > 1 gives kb > 1024^u2.
      PowPositive(u1);
      PowPositive(u2);
      PowMonotone(u1 + 1, u2);
      ScaleBelow(s1, 1024.0, Pow1024(u1));
      ScaleBelow(1.0, s2, Pow1024(u2));
      assert false;
    }
  }

  lemma ScaleBelow(a: real, b: real, p: real)
    requires a <= b && p >= 0.0
    ensures a * p <= b * p
  {
  }

  lemma PowPositive(n: nat)
    ensures Pow1024(n) >= 1.0
  {
    if n > 0 {
      PowPositive(n - 1);
    }
  }

  lemma PowMonotone(m: nat, n: nat)
    requires m <= n
    ensures Pow1024(m) <= Pow1024(n)
  {
    if m < n {
      PowMonotone(m, n - 1);
      PowPositive(n - 1);
    }
  }

  /** After the as-written loop: the index reaches 4 exactly when the starting
      value exceeds 1024^4. */
  lemma ExceedsPower(fileSize: real, unitIndex: nat)
    requires unitIndex <= 4
    requires unitIndex < 4 ==> fileSize <= 1024.0
    requires unitIndex > 0 ==> fileSize > 1.0
    ensures unitIndex == 4 <==> fileSize * Pow1024(unitIndex) > Pow1024(4)
  {
    PowPositive(unitIndex);
    if unitIndex < 4 {
      PowMonotone(unitIndex + 1, 4);
      assert fileSize * Pow1024(unitIndex) <= 1024.0 * Pow1024(unitIndex);
    } else {
      assert fileSize * Pow1024(4) > 1.0 * Pow1024(4);
    }
  }

  /** The two loops give the same reading for every size up to 1024^4
      kilobytes; above it the loop as written runs off the table where the
      capped loop stops at TB. */
  method CappedMatchesAsWritten(bytes: nat) returns (asWritten: (real, nat), capped: (real, nat))
    ensures (bytes / 1024) as real <= Pow1024(4) ==> asWritten == capped
    ensures (bytes / 1024) as real > Pow1024(4) ==> asWritten.1 == |Units| && capped.1 == |Units| - 1
  {
    var s1, u1 := ScaleFileSizeAsWritten(bytes);
    var s2, u2 := ScaleFileSize(bytes);
    if u1 < |Units| {
      ScaledSizeUnique(bytes, s1, u1, s2, u2);
    } else {
      CappedAtTop(bytes, s2, u2);
    }
    asWritten, capped := (s1, u1), (s2, u2);
  }

  /** A size beyond 1024^4 kilobytes is shown in the last unit. */
  lemma CappedAtTop(bytes: nat, size: real, unitIndex: nat)
    requires IsScaledSize(bytes, size, unitIndex)
    requires (bytes / 1024) as real > Pow1024(4)
    ensures unitIndex == |Units| - 1
  {
    if unitIndex < |Units| - 1 {
      PowPositive(unitIndex);
      PowMonotone(unitIndex + 1, 4);
      ScaleBelow(size, 1024.0, Pow1024(unitIndex));
      assert false;
    }
  }

  /** A concrete input that drives the as-written loop past the table: a file of
      2^51 bytes is 2^41 kilobytes, which is 2 after four divisions. */
  method UnitIndexOverrun() returns (unitIndex: nat)
    ensures unitIndex == |Units|
  {
    assert Pow1024(4) == 1099511627776.0;
    var size;
    size, unitIndex := ScaleFileSizeAsWritten(0x8_0000_0000_0000);
  }
}
