/**
 * The BCD codec of the SAM3X real-time clock driver: packing an hour, minute
 * and second into the `RTC_TIMR` word and a year, month, day and weekday into
 * the `RTC_CALR` word, unpacking them again, building the two alarm words,
 * and the mask helpers around the mode, status and status-clear registers.
 *
 * The registers themselves are not modelled: the 12/24-hour mode bit of
 * `RTC_MR` is a parameter, and a register value is a `Word` argument or
 * result.  Where the driver's code and its evident intent differ, the codec
 * exists twice: `...AsWritten` members follow the code, and the members
 * without the suffix are the corrected definitions the round trips are
 * proved for.
 */
module Rtc {
  import opened Bits

  datatype Option<T> = None | Some(value: T)

  /** What the encoders return when a field does not fit. */
  const FAIL: Word := 0xFFFF_FFFF

  /*
   * Register layout of the SAM3X RTC, written as literals below:
   *   field masks       hour 0x3F, minute 0x7F, second 0x7F, century 0x7F,
   *                     year 0xFF, month 0x1F, day 0x3F, weekday 0x07
   *   RTC_MR            HRMOD bit 0
   *   RTC_TIMR          AMPM bit 22
   *   RTC_TIMALR        SECEN bit 7, MINEN bit 15, HOUREN bit 23
   *   RTC_CALALR        MTHEN bit 23, DATEEN bit 31
   *   RTC_SCCR          ACKCLR, ALRCLR, SECCLR, TIMCLR, CALCLR: bits 0-4
   */

  datatype TimeOfDay = TimeOfDay(hour: Byte, minute: Byte, second: Byte)

  datatype CalendarDate = CalendarDate(year: Half, month: Byte, day: Byte, week: Byte)

  /** An hour as the 12-hour clock shows it: 1 to 12 and the PM flag. */
  datatype ClockHour = ClockHour(hour: Byte, pm: bool)

  /** A flag as the bit it sets. */
  function Bit(b: bool): nat
  {
    if b then 1 else 0
  }

  // ---------------------------------------------------------------------
  // BCD digits and the overflow test
  // ---------------------------------------------------------------------

  /**
   * Packed BCD of a value: the units digit in the low nibble and the tens
   * count above it, before any truncation to a byte.  The two parts share
   * no bit, so their bitwise or is written here as a sum (see `BcdIsOr`).
   */
  function Bcd(v: nat): (r: nat)
    ensures r % 16 == v % 10 && r / 16 == v / 10
  {
    DivModUnique(v % 10 + (v / 10) * 16, 16, v / 10, v % 10);
    v % 10 + (v / 10) * 16
  }

  /** The BCD value is the driver's `|` of the two digits. */
  lemma BcdIsOr(v: nat)
    ensures Bcd(v) == Or(v % 10, (v / 10) * 16)
  {
    OrBelowMultiple(v % 10, v / 10, 16);
  }

  /** A BCD value stays within `16 n + 15` exactly when its tens count is at most `n`. */
  lemma BcdAtMost(v: nat, n: nat)
    ensures Bcd(v) <= 16 * n + 15 <==> v <= 10 * n + 9
  {
    assert v == 10 * (v / 10) + v % 10;
  }

  /** The masks of the register fields, as bounds on the decimal value. */
  lemma BcdFits(v: nat)
    ensures Bcd(v) <= 0x3F <==> v <= 39
    ensures Bcd(v) <= 0x7F <==> v <= 79
    ensures Bcd(v) <= 0x1F <==> v <= 19
    ensures Bcd(v) <= 0x07 <==> v <= 7
    ensures Bcd(v) <= 0xFF <==> v <= 159
  {
    BcdAtMost(v, 3);
    BcdAtMost(v, 7);
    BcdAtMost(v, 1);
    BcdAtMost(v, 0);
    BcdAtMost(v, 15);
  }

  /**
   * The overflow test of the encoders on a `uint8_t`: the byte has no bit
   * outside the mask exactly when it does not exceed the mask.
   */
  lemma MaskTest(b: nat, mask: nat)
    requires IsPow2(mask + 1) && mask < 0x100 && b < 0x100
    ensures And(b, 0xFF - mask) == 0 <==> b <= mask
  {
    HighBitsClear(b, mask + 1, 0x100);
  }

  // ---------------------------------------------------------------------
  // 12-hour clock
  // ---------------------------------------------------------------------

  /**
   * The 12-hour form of a 24-hour hour as evidently intended: hours from
   * noon on are PM, hours after noon lose 12, and midnight is 12 AM.
   */
  function TwelveHour(hour: Byte): (c: ClockHour)
    ensures hour < 24 ==> 1 <= c.hour <= 12 && (c.pm <==> hour >= 12)
    ensures hour < 24 ==> c.hour % 12 == hour % 12
    ensures hour > 12 ==> c == ClockHour(hour - 12, true)
  {
    if hour > 12 then ClockHour(hour - 12, true)
    else if hour == 12 then ClockHour(12, true)
    else if hour == 0 then ClockHour(12, false)
    else ClockHour(hour, false)
  }

  /**
   * The 12-hour form as `calculate_dwTime` computes it: PM only for hours
   * above 12, so noon is written as 12 without the PM flag, exactly as
   * midnight is.
   */
  function TwelveHourAsWritten(hour: Byte): (c: ClockHour)
    ensures hour != 12 ==> c == TwelveHour(hour)
    ensures hour == 12 ==> c == ClockHour(12, false) == TwelveHour(0)
  {
    if hour > 12 then ClockHour(hour - 12, true)
    else if hour == 0 then ClockHour(12, false)
    else ClockHour(hour, false)
  }

  /**
   * The 24-hour hour `dwTime2time` reads back from a 12-hour register: PM
   * hours below 12 gain 12, and 12 AM becomes 0.
   */
  function ToTwentyFour(c: ClockHour): (hour: nat)
    ensures 1 <= c.hour <= 12 ==> hour < 24 && (hour >= 12 <==> c.pm)
    ensures hour % 12 == c.hour % 12
  {
    if c.pm then (if c.hour < 12 then c.hour + 12 else c.hour)
    else if c.hour == 12 then 0
    else c.hour
  }

  /** Reading back the corrected 12-hour form gives the hour that was written. */
  lemma TwelveHourRoundTrip(hour: Byte)
    requires hour < 24
    ensures ToTwentyFour(TwelveHour(hour)) == hour
  {
  }

  /** Reading back the 12-hour form as written turns noon into midnight. */
  lemma NoonReadsAsMidnight()
    ensures ToTwentyFour(TwelveHourAsWritten(12)) == 0
    ensures TwelveHourAsWritten(12) == TwelveHourAsWritten(0)
  {
  }

  /** The hour field before BCD: the 12-hour form when `RTC_MR.HRMOD` is set. */
  function HourField(twelveHour: bool, hour: Byte): ClockHour
  {
    if twelveHour then TwelveHour(hour) else ClockHour(hour, false)
  }

  function HourFieldAsWritten(twelveHour: bool, hour: Byte): ClockHour
  {
    if twelveHour then TwelveHourAsWritten(hour) else ClockHour(hour, false)
  }

  // ---------------------------------------------------------------------
  // RTC_TIMR: hour, minute, second
  // ---------------------------------------------------------------------

  /**
   * The time word built from the AMPM bit and the three BCD bytes that
   * passed the overflow test: the fields share no bit, so the word is their sum, with
   * the second in bits 0-6, the minute in bits 8-14, the hour in bits 16-21
   * and the PM flag in bit 22.
   */
  function PackTime(pm: bool, hb: nat, mb: nat, sb: nat): (w: Word)
    requires hb <= 0x3F && mb <= 0x7F && sb <= 0x7F
    ensures w == sb + mb * 0x100 + hb * 0x1_0000 + Bit(pm) * 0x40_0000
  {
    PackTimeOr(Bit(pm), hb, mb, sb);
    Or(Or(Or(Bit(pm) * 0x40_0000, sb), mb * 0x100), hb * 0x1_0000)
  }

  lemma PackTimeOr(k: nat, hb: nat, mb: nat, sb: nat)
    requires k <= 1 && hb <= 0x3F && mb <= 0x7F && sb <= 0x7F
    ensures Or(Or(Or(k * 0x40_0000, sb), mb * 0x100), hb * 0x1_0000)
      == sb + mb * 0x100 + hb * 0x1_0000 + k * 0x40_0000
  {
    var a := Or(k * 0x40_0000, sb);
    PmAndSecond(a, k, sb);
    var b := Or(a, mb * 0x100);
    MinuteIn(a, b, k, mb, sb);
    HourIn(b, k, hb, mb, sb);
  }

  lemma PmAndSecond(a: nat, k: nat, sb: nat)
    requires k <= 1 && sb <= 0x7F && a == Or(k * 0x40_0000, sb)
    ensures a == sb + k * 0x40_0000
  {
    assert IsPow2(0x40_0000) by { Pow2Large(); }
    OrBelowMultiple(sb, k, 0x40_0000);
  }

  lemma MinuteIn(a: nat, b: nat, k: nat, mb: nat, sb: nat)
    requires k <= 1 && mb <= 0x7F && sb <= 0x7F && a == sb + k * 0x40_0000 && b == Or(a, mb * 0x100)
    ensures b == sb + mb * 0x100 + k * 0x40_0000
  {
    Pow2Byte();
    assert IsPow2(0x1_0000) by { Pow2Large(); }
    OrInsert(a, mb * 0x100, sb, mb, k * 0x40, 0x100, 0x1_0000);
  }

  lemma HourIn(b: nat, k: nat, hb: nat, mb: nat, sb: nat)
    requires k <= 1 && hb <= 0x3F && mb <= 0x7F && sb <= 0x7F && b == sb + mb * 0x100 + k * 0x40_0000
    ensures Or(b, hb * 0x1_0000) == sb + mb * 0x100 + hb * 0x1_0000 + k * 0x40_0000
  {
    assert IsPow2(0x1_0000) && IsPow2(0x40_0000) by { Pow2Large(); }
    OrInsert(b, hb * 0x1_0000, sb + mb * 0x100, hb, k, 0x1_0000, 0x40_0000);
  }

  /**
   * The word of a time layout, byte by byte: the BCD second `s`, minute `m`
   * and hour `h`, the PM flag, and the alarm enable bits `se`, `me` and
   * `he`, which the time word leaves clear.
   */
  predicate TimeLayout(w: nat, s: nat, se: nat, m: nat, me: nat, h: nat, pm: nat, he: nat)
  {
    && s < 0x80 && m < 0x80 && h < 0x40 && se < 2 && me < 2 && pm < 2 && he < 2
    && w == s + 0x80 * se + 0x100 * m + 0x8000 * me + 0x1_0000 * h + 0x40_0000 * pm + 0x80_0000 * he
  }

  /** The second and minute nibbles of a word in the `RTC_TIMR` / `RTC_TIMALR` layout. */
  lemma TimeLowNibbles(w: nat, s: nat, se: nat, m: nat, me: nat, h: nat, pm: nat, he: nat)
    requires TimeLayout(w, s, se, m, me, h, pm, he)
    ensures w % 0x10 == s % 16 && (w / 0x10) % 8 == s / 16 && (w / 0x80) % 2 == se
    ensures (w / 0x100) % 0x10 == m % 16 && (w / 0x1000) % 8 == m / 16 && (w / 0x8000) % 2 == me
  {
    var mm := m + 0x80 * me;
    var hi := h + 0x40 * pm + 0x80 * he;
    assert w % 0x10 == s % 16 by {
      DigitAt(w, 0, s % 16, s / 16 + 8 * se + 0x10 * mm + 0x1000 * hi, 1, 0x10);
    }
    assert (w / 0x10) % 8 == s / 16 by {
      DigitAt(w, s % 16, s / 16, se + 2 * mm + 0x200 * hi, 0x10, 8);
    }
    assert (w / 0x80) % 2 == se by {
      DigitAt(w, s, se, mm + 0x100 * hi, 0x80, 2);
    }
    assert (w / 0x100) % 0x10 == m % 16 by {
      DigitAt(w, s + 0x80 * se, m % 16, m / 16 + 8 * me + 0x10 * hi, 0x100, 0x10);
    }
    assert (w / 0x1000) % 8 == m / 16 by {
      DigitAt(w, s + 0x80 * se + 0x100 * (m % 16), m / 16, me + 2 * hi, 0x1000, 8);
    }
    assert (w / 0x8000) % 2 == me by {
      DigitAt(w, s + 0x80 * se + 0x100 * m, me, hi, 0x8000, 2);
    }
  }

  /** The hour nibbles and the two flags of a word in the same layout. */
  lemma TimeHighNibbles(w: nat, s: nat, se: nat, m: nat, me: nat, h: nat, pm: nat, he: nat)
    requires TimeLayout(w, s, se, m, me, h, pm, he)
    ensures (w / 0x1_0000) % 0x10 == h % 16 && (w / 0x10_0000) % 4 == h / 16
    ensures (w / 0x40_0000) % 2 == pm && (w / 0x80_0000) % 2 == he
  {
    var lo := s + 0x80 * se + 0x100 * m + 0x8000 * me;
    assert (w / 0x1_0000) % 0x10 == h % 16 by {
      DigitAt(w, lo, h % 16, h / 16 + 4 * pm + 8 * he, 0x1_0000, 0x10);
    }
    assert (w / 0x10_0000) % 4 == h / 16 by {
      DigitAt(w, lo + 0x1_0000 * (h % 16), h / 16, pm + 2 * he, 0x10_0000, 4);
    }
    assert (w / 0x40_0000) % 2 == pm by {
      DigitAt(w, lo + 0x1_0000 * h, pm, he, 0x40_0000, 2);
    }
    assert (w / 0x80_0000) % 2 == he by {
      DigitAt(w, lo + 0x1_0000 * h + 0x40_0000 * pm, he, 0, 0x80_0000, 2);
    }
  }

  /**
   * A time word holding the BCD digits of an hour, minute and second that
   * fit their fields reads back as those values and the PM flag.
   */
  lemma TimeDigits(w: Word, c: ClockHour, minute: nat, second: nat)
    requires c.hour <= 39 && minute <= 79 && second <= 79
    requires w == Bcd(second) + Bcd(minute) * 0x100 + Bcd(c.hour) * 0x1_0000 + Bit(c.pm) * 0x40_0000
    ensures HourOf(w) == c.hour && PmOf(w) == c.pm && MinuteOf(w) == minute && SecondOf(w) == second
  {
    assert TimeLayout(w, Bcd(second), 0, Bcd(minute), 0, Bcd(c.hour), Bit(c.pm), 0);
    TimeLowNibbles(w, Bcd(second), 0, Bcd(minute), 0, Bcd(c.hour), Bit(c.pm), 0);
    TimeHighNibbles(w, Bcd(second), 0, Bcd(minute), 0, Bcd(c.hour), Bit(c.pm), 0);
  }

  /**
   * The overflow test of `calculate_dwTime` on three `uint8_t` BCD values:
   * some field has a bit outside its mask.
   */
  predicate TimeOverflows(hb: Byte, mb: Byte, sb: Byte)
  {
    Or(Or(And(hb, 0xC0), And(mb, 0x80)), And(sb, 0x80)) != 0
  }

  lemma TimeOverflowsExactly(hb: Byte, mb: Byte, sb: Byte)
    ensures TimeOverflows(hb, mb, sb) <==> hb > 0x3F || mb > 0x7F || sb > 0x7F
  {
    Pow2Byte();
    MaskTest(hb, 0x3F);
    MaskTest(mb, 0x7F);
    MaskTest(sb, 0x7F);
    OrZero(And(hb, 0xC0), And(mb, 0x80));
    OrZero(Or(And(hb, 0xC0), And(mb, 0x80)), And(sb, 0x80));
  }

  /**
   * `calculate_dwTime` as written: the BCD values are stored in `uint8_t`
   * variables before the overflow test, so a tens count of 16 or more is
   * truncated away and can pass the test.
   */
  function CalculateTimeAsWritten(twelveHour: bool, hour: Byte, minute: Byte, second: Byte): (w: Word)
    ensures var c := HourFieldAsWritten(twelveHour, hour);
      w == FAIL <==> U8(Bcd(c.hour)) > 0x3F || U8(Bcd(minute)) > 0x7F || U8(Bcd(second)) > 0x7F
    ensures var c := HourFieldAsWritten(twelveHour, hour);
      w != FAIL ==> w == PackTime(c.pm, U8(Bcd(c.hour)), U8(Bcd(minute)), U8(Bcd(second)))
  {
    var c := HourFieldAsWritten(twelveHour, hour);
    var hb, mb, sb := U8(Bcd(c.hour)), U8(Bcd(minute)), U8(Bcd(second));
    TimeOverflowsExactly(hb, mb, sb);
    if TimeOverflows(hb, mb, sb) then FAIL else PackTime(c.pm, hb, mb, sb)
  }

  /**
   * `calculate_dwTime` with the overflow test applied to the full BCD values
   * and noon written as 12 PM: the word fails exactly when the clock hour
   * exceeds 39 or the minute or second exceeds 79 (a bit test, not a range
   * test, so 24:00 to 39:59 and minutes and seconds 60 to 79 pass).
   */
  function CalculateTime(twelveHour: bool, hour: Byte, minute: Byte, second: Byte): (w: Word)
    ensures w == FAIL <==> HourField(twelveHour, hour).hour > 39 || minute > 79 || second > 79
    ensures var c := HourField(twelveHour, hour);
      w != FAIL ==> w == PackTime(c.pm, Bcd(c.hour), Bcd(minute), Bcd(second))
  {
    var c := HourField(twelveHour, hour);
    BcdFits(c.hour);
    BcdFits(minute);
    BcdFits(second);
    if Bcd(c.hour) > 0x3F || Bcd(minute) > 0x7F || Bcd(second) > 0x7F then FAIL
    else PackTime(c.pm, Bcd(c.hour), Bcd(minute), Bcd(second))
  }

  /** The second of a time word: tens in bits 4-6, units in bits 0-3. */
  function SecondOf(w: Word): (s: nat)
    ensures s == ((w / 0x10) % 8) * 10 + w % 0x10
  {
    FieldParts(w, 7, 0x10);
    AndLowMask(w, 0x10);
    (And(w, 0x70) / 0x10) * 10 + And(w, 0xF)
  }

  /** The minute of a time word: tens in bits 12-14, units in bits 8-11. */
  function MinuteOf(w: Word): (m: nat)
    ensures m == ((w / 0x1000) % 8) * 10 + (w / 0x100) % 0x10
  {
    FieldParts(w, 7, 0x1000);
    FieldParts(w, 15, 0x100);
    (And(w, 0x7000) / 0x1000) * 10 + And(w, 0xF00) / 0x100
  }

  /** The hour of a time word: tens in bits 20-21, units in bits 16-19. */
  function HourOf(w: Word): (h: nat)
    ensures h == ((w / 0x10_0000) % 4) * 10 + (w / 0x1_0000) % 0x10
  {
    assert IsPow2(0x10_0000) && IsPow2(0x1_0000) by { Pow2Large(); }
    FieldParts(w, 3, 0x10_0000);
    FieldParts(w, 15, 0x1_0000);
    (And(w, 0x30_0000) / 0x10_0000) * 10 + And(w, 0xF_0000) / 0x1_0000
  }

  /** The PM flag of a time word, bit 22 (`RTC_TIMR_AMPM`). */
  function PmOf(w: Word): (pm: bool)
    ensures pm <==> (w / 0x40_0000) % 2 == 1
  {
    assert IsPow2(0x40_0000) by { Pow2Large(); }
    FieldParts(w, 1, 0x40_0000);
    Recombine(And(w, 0x40_0000), 0x40_0000, (w / 0x40_0000) % 2, 0);
    And(w, 0x40_0000) == 0x40_0000
  }

  /**
   * `dwTime2time`: each field is read from its digits, and in 12-hour mode
   * the PM flag and the hour 12 are turned back into a 24-hour hour.  The
   * output arguments are optional in the driver; all three fields are returned.
   */
  function DecodeTime(twelveHour: bool, w: Word): (t: TimeOfDay)
    ensures t.hour <= 45 && t.minute <= 85 && t.second <= 85
  {
    var raw := HourOf(w);
    TimeOfDay(if twelveHour then ToTwentyFour(ClockHour(raw, PmOf(w))) else raw, MinuteOf(w), SecondOf(w))
  }

  /**
   * Every time the corrected encoder accepts reads back unchanged, in either
   * mode (in 12-hour mode for the 24 hours of a day).
   */
  lemma TimeRoundTrip(twelveHour: bool, hour: Byte, minute: Byte, second: Byte)
    requires CalculateTime(twelveHour, hour, minute, second) != FAIL
    requires twelveHour ==> hour < 24
    ensures DecodeTime(twelveHour, CalculateTime(twelveHour, hour, minute, second)) == TimeOfDay(hour, minute, second)
  {
    var c := HourField(twelveHour, hour);
    var w := CalculateTime(twelveHour, hour, minute, second);
    TimeDigits(w, c, minute, second);
    if twelveHour {
      TwelveHourRoundTrip(hour);
    }
  }

  /**
   * Away from noon in 12-hour mode, and for values whose BCD form fits a
   * byte, the encoder as written computes the corrected word.
   */
  lemma TimeAsWrittenAgrees(twelveHour: bool, hour: Byte, minute: Byte, second: Byte)
    requires !(twelveHour && hour == 12)
    requires HourField(twelveHour, hour).hour <= 159 && minute <= 159 && second <= 159
    ensures CalculateTimeAsWritten(twelveHour, hour, minute, second) == CalculateTime(twelveHour, hour, minute, second)
  {
    BcdFits(HourField(twelveHour, hour).hour);
    BcdFits(minute);
    BcdFits(second);
  }

  /**
   * The encoder as written round-trips the times of a day, except noon in
   * 12-hour mode.
   */
  lemma TimeRoundTripAsWritten(twelveHour: bool, hour: Byte, minute: Byte, second: Byte)
    requires hour < 24 && minute < 60 && second < 60
    requires !(twelveHour && hour == 12)
    ensures CalculateTimeAsWritten(twelveHour, hour, minute, second) != FAIL
    ensures DecodeTime(twelveHour, CalculateTimeAsWritten(twelveHour, hour, minute, second)) == TimeOfDay(hour, minute, second)
  {
    TimeAsWrittenAgrees(twelveHour, hour, minute, second);
    TimeRoundTrip(twelveHour, hour, minute, second);
  }

  /**
   * In 12-hour mode the encoder as written stores noon as it stores
   * midnight, so every time in the hour after noon reads back as the same
   * time after midnight; the corrected encoder keeps them apart.
   */
  lemma NoonAsWritten(minute: Byte, second: Byte)
    requires minute < 60 && second < 60
    ensures CalculateTimeAsWritten(true, 12, minute, second) == CalculateTimeAsWritten(true, 0, minute, second) != FAIL
    ensures DecodeTime(true, CalculateTimeAsWritten(true, 12, minute, second)) == TimeOfDay(0, minute, second)
    ensures DecodeTime(true, CalculateTime(true, 12, minute, second)) == TimeOfDay(12, minute, second)
  {
    assert HourFieldAsWritten(true, 12) == HourFieldAsWritten(true, 0);
    TimeRoundTripAsWritten(true, 0, minute, second);
    TimeRoundTrip(true, 12, minute, second);
  }

  /**
   * A minute from 160 to 239 has a BCD value from 0x100, whose high nibble
   * the `uint8_t` drops: as written the time is accepted and reads back 160
   * minutes early.  The corrected encoder rejects it.
   */
  lemma MinuteTruncatedAsWritten(hour: Byte, minute: Byte, second: Byte)
    requires hour < 24 && 160 <= minute <= 239 && second < 60
    ensures CalculateTimeAsWritten(false, hour, minute, second) == CalculateTime(false, hour, minute - 160, second) != FAIL
    ensures DecodeTime(false, CalculateTimeAsWritten(false, hour, minute, second)) == TimeOfDay(hour, minute - 160, second)
    ensures CalculateTime(false, hour, minute, second) == FAIL
  {
    BcdWraps(minute);
    TimeAsWrittenAgrees(false, hour, minute - 160, second);
    TimeRoundTrip(false, hour, minute - 160, second);
  }

  /** The byte of the BCD value of 160 to 255 drops 160. */
  lemma BcdWraps(v: nat)
    requires 160 <= v <= 255
    ensures U8(Bcd(v)) == Bcd(v - 160)
  {
    DivModUnique(v, 10, 16 + (v - 160) / 10, (v - 160) % 10);
    assert Bcd(v) == Bcd(v - 160) + 0x100;
    DivModUnique(Bcd(v), 0x100, 1, Bcd(v - 160));
  }

  // ---------------------------------------------------------------------
  // RTC_CALR: century, year, month, weekday, day
  // ---------------------------------------------------------------------

  /** The decimal digits of a year, as divisions of its tens. */
  lemma DecimalParts(year: nat)
    ensures year / 100 == (year / 10) / 10 && year / 1000 == (year / 100) / 10
    ensures year % 100 == 10 * ((year / 10) % 10) + year % 10
    ensures (year % 100) % 10 == year % 10 && (year % 100) / 10 == (year / 10) % 10
  {
    var d1 := year / 10;
    var d2 := d1 / 10;
    var d3 := d2 / 10;
    DivModUnique(year, 100, d2, 10 * (d1 % 10) + year % 10);
    DivModUnique(year, 1000, d3, 100 * (d2 % 10) + 10 * (d1 % 10) + year % 10);
    DivModUnique(year % 100, 10, d1 % 10, year % 10);
  }

  /** The BCD century byte: the hundreds digit low, the thousands count high, as a sum. */
  function CenturyBcd(year: nat): (r: nat)
    ensures r % 16 == (year / 100) % 10 && r / 16 == year / 1000
  {
    DecimalParts(year);
    Bcd(year / 100)
  }

  /** The BCD year within the century: the units digit low, the tens digit high, as a sum. */
  function YearBcd(year: nat): (r: nat)
    ensures r % 16 == year % 10 && r / 16 == (year / 10) % 10 && r <= 0x99
  {
    DecimalParts(year);
    Bcd(year % 100)
  }

  /** Both are the driver's `|` of their two digits. */
  lemma CalendarBcdIsOr(year: nat)
    ensures CenturyBcd(year) == Or((year / 100) % 10, (year / 1000) * 16)
    ensures YearBcd(year) == Or(year % 10, ((year / 10) % 10) * 16)
  {
    OrBelowMultiple((year / 100) % 10, year / 1000, 16);
    OrBelowMultiple(year % 10, (year / 10) % 10, 16);
  }

  /**
   * The date word built from century, year, month, weekday and day bytes
   * that passed the overflow test: the fields share no bit, so the word is
   * their sum.
   */
  function PackDate(cb: nat, yb: nat, mb: nat, wb: nat, db: nat): (w: Word)
    requires cb <= 0x7F && yb <= 0xFF && mb <= 0x1F && wb <= 0x07 && db <= 0x3F
    ensures w == cb + yb * 0x100 + mb * 0x1_0000 + wb * 0x20_0000 + db * 0x100_0000
  {
    PackDateOr(cb, yb, mb, wb, db);
    Or(Or(Or(Or(cb, yb * 0x100), mb * 0x1_0000), wb * 0x20_0000), db * 0x100_0000)
  }

  lemma PackDateOr(cb: nat, yb: nat, mb: nat, wb: nat, db: nat)
    requires cb <= 0x7F && yb <= 0xFF && mb <= 0x1F && wb <= 0x07 && db <= 0x3F
    ensures Or(Or(Or(Or(cb, yb * 0x100), mb * 0x1_0000), wb * 0x20_0000), db * 0x100_0000)
      == cb + yb * 0x100 + mb * 0x1_0000 + wb * 0x20_0000 + db * 0x100_0000
  {
    assert IsPow2(0x1_0000) && IsPow2(0x20_0000) && IsPow2(0x100_0000) by { Pow2Large(); }
    var x1 := Or(cb, yb * 0x100);
    OrAdd(x1, cb, yb, 0x100);
    var x2 := Or(x1, mb * 0x1_0000);
    OrAdd(x2, x1, mb, 0x1_0000);
    var x3 := Or(x2, wb * 0x20_0000);
    OrAdd(x3, x2, wb, 0x20_0000);
    OrAdd(Or(x3, db * 0x100_0000), x3, db, 0x100_0000);
  }

  /**
   * The word of a calendar layout, field by field: the BCD century `c`, year
   * `y`, month `m` and day `d`, the weekday split into its low two bits `wk`
   * and its high bit `mte` (which is the month alarm enable bit in
   * `RTC_CALALR`), and the date alarm enable bit `de`.
   */
  predicate DateLayout(w: nat, c: nat, y: nat, m: nat, wk: nat, mte: nat, d: nat, de: nat)
  {
    && c < 0x80 && y < 0x100 && m < 0x20 && wk < 4 && mte < 2 && d < 0x40 && de < 2
    && w == c + 0x100 * y + 0x1_0000 * m + 0x20_0000 * wk + 0x80_0000 * mte + 0x100_0000 * d + 0x8000_0000 * de
  }

  /** The century and year nibbles of a word in the `RTC_CALR` / `RTC_CALALR` layout. */
  lemma DateLowNibbles(w: nat, c: nat, y: nat, m: nat, wk: nat, mte: nat, d: nat, de: nat)
    requires DateLayout(w, c, y, m, wk, mte, d, de)
    ensures w % 0x10 == c % 16 && (w / 0x10) % 8 == c / 16
    ensures (w / 0x100) % 0x10 == y % 16 && (w / 0x1000) % 0x10 == y / 16
  {
    var mid := m + 0x20 * wk + 0x80 * mte;
    var hi := d + 0x80 * de;
    assert w % 0x10 == c % 16 by {
      DigitAt(w, 0, c % 16, c / 16 + 0x10 * y + 0x1000 * mid + 0x10_0000 * hi, 1, 0x10);
    }
    assert (w / 0x10) % 8 == c / 16 by {
      DigitAt(w, c % 16, c / 16, 2 * y + 0x200 * mid + 0x2_0000 * hi, 0x10, 8);
    }
    assert (w / 0x100) % 0x10 == y % 16 by {
      DigitAt(w, c, y % 16, y / 16 + 0x10 * mid + 0x1000 * hi, 0x100, 0x10);
    }
    assert (w / 0x1000) % 0x10 == y / 16 by {
      DigitAt(w, c + 0x100 * (y % 16), y / 16, mid + 0x100 * hi, 0x1000, 0x10);
    }
  }

  /** The month, weekday, day and enable nibbles of a word in the same layout. */
  lemma DateHighNibbles(w: nat, c: nat, y: nat, m: nat, wk: nat, mte: nat, d: nat, de: nat)
    requires DateLayout(w, c, y, m, wk, mte, d, de)
    ensures (w / 0x1_0000) % 0x10 == m % 16 && (w / 0x10_0000) % 2 == m / 16
    ensures (w / 0x20_0000) % 8 == wk + 4 * mte && (w / 0x80_0000) % 2 == mte
    ensures (w / 0x100_0000) % 0x10 == d % 16 && (w / 0x1000_0000) % 4 == d / 16
    ensures (w / 0x8000_0000) % 2 == de
  {
    var lo := c + 0x100 * y;
    var mid := m + 0x20 * wk + 0x80 * mte;
    var hi := d + 0x80 * de;
    assert (w / 0x1_0000) % 0x10 == m % 16 by {
      DigitAt(w, lo, m % 16, m / 16 + 2 * wk + 8 * mte + 0x10 * hi, 0x1_0000, 0x10);
    }
    assert (w / 0x10_0000) % 2 == m / 16 by {
      DigitAt(w, lo + 0x1_0000 * (m % 16), m / 16, wk + 4 * mte + 8 * hi, 0x10_0000, 2);
    }
    assert (w / 0x20_0000) % 8 == wk + 4 * mte by {
      DigitAt(w, lo + 0x1_0000 * m, wk + 4 * mte, hi, 0x20_0000, 8);
    }
    assert (w / 0x80_0000) % 2 == mte by {
      DigitAt(w, lo + 0x1_0000 * m + 0x20_0000 * wk, mte, hi, 0x80_0000, 2);
    }
    assert (w / 0x100_0000) % 0x10 == d % 16 by {
      DigitAt(w, lo + 0x1_0000 * mid, d % 16, d / 16 + 8 * de, 0x100_0000, 0x10);
    }
    assert (w / 0x1000_0000) % 4 == d / 16 by {
      DigitAt(w, lo + 0x1_0000 * mid + 0x100_0000 * (d % 16), d / 16, 2 * de, 0x1000_0000, 4);
    }
    assert (w / 0x8000_0000) % 2 == de by {
      DigitAt(w, lo + 0x1_0000 * mid + 0x100_0000 * d, de, 0, 0x8000_0000, 2);
    }
  }

  /** The overflow test of `calculate_dwDate` on five `uint8_t` BCD values. */
  predicate DateOverflows(cb: Byte, yb: Byte, mb: Byte, wb: Byte, db: Byte)
  {
    Or(Or(Or(Or(And(cb, 0x80), And(yb, 0)), And(mb, 0xE0)), And(wb, 0xF8)), And(db, 0xC0)) != 0
  }

  lemma DateOverflowsExactly(cb: Byte, yb: Byte, mb: Byte, wb: Byte, db: Byte)
    ensures DateOverflows(cb, yb, mb, wb, db) <==> cb > 0x7F || mb > 0x1F || wb > 0x07 || db > 0x3F
  {
    Pow2Byte();
    MaskTest(cb, 0x7F);
    MaskTest(yb, 0xFF);
    MaskTest(mb, 0x1F);
    MaskTest(wb, 0x07);
    MaskTest(db, 0x3F);
    var c, y, m, k, d := And(cb, 0x80), And(yb, 0), And(mb, 0xE0), And(wb, 0xF8), And(db, 0xC0);
    OrZero(c, y);
    OrZero(Or(c, y), m);
    OrZero(Or(Or(c, y), m), k);
    OrZero(Or(Or(Or(c, y), m), k), d);
  }

  /**
   * `calculate_dwDate` as written: the BCD values are stored in `uint8_t`
   * variables before the overflow test, so a century of 160 or more (a year
   * from 16000) loses its high nibble and can pass the test.
   */
  function CalculateDateAsWritten(year: Half, month: Byte, day: Byte, week: Byte): (w: Word)
    ensures w == FAIL <==> (U8(CenturyBcd(year)) > 0x7F || U8(Bcd(month)) > 0x1F
      || U8(Bcd(week)) > 0x07 || U8(Bcd(day)) > 0x3F)
    ensures w != FAIL ==>
      w == PackDate(U8(CenturyBcd(year)), YearBcd(year), U8(Bcd(month)), U8(Bcd(week)), U8(Bcd(day)))
  {
    var cb, yb, mb, db, wb := U8(CenturyBcd(year)), U8(YearBcd(year)), U8(Bcd(month)), U8(Bcd(day)), U8(Bcd(week));
    DateOverflowsExactly(cb, yb, mb, wb, db);
    if DateOverflows(cb, yb, mb, wb, db) then FAIL else PackDate(cb, yb, mb, wb, db)
  }

  /**
   * `calculate_dwDate` with the overflow test applied to the full BCD
   * values: the word fails exactly for years from 8000, months from 20,
   * days from 40 and weekdays from 8.
   */
  function CalculateDate(year: Half, month: Byte, day: Byte, week: Byte): (w: Word)
    ensures w == FAIL <==> year > 7999 || month > 19 || day > 39 || week > 7
    ensures w != FAIL ==> w == PackDate(CenturyBcd(year), YearBcd(year), Bcd(month), Bcd(week), Bcd(day))
  {
    BcdFits(year / 100);
    assert year / 100 <= 79 <==> year <= 7999;
    BcdFits(month);
    BcdFits(day);
    BcdFits(week);
    if CenturyBcd(year) > 0x7F || Bcd(month) > 0x1F || Bcd(week) > 0x07 || Bcd(day) > 0x3F then FAIL
    else PackDate(CenturyBcd(year), YearBcd(year), Bcd(month), Bcd(week), Bcd(day))
  }

  /**
   * `((dwDate >> 4) & 0x7) * 1000 + (dwDate & 0xF) * 100
   * + ((dwDate >> 12) & 0xF) * 10 + ((dwDate >> 8) & 0xF)`: the year digits.
   */
  function YearOf(w: Word): (y: nat)
    ensures y == ((w / 0x10) % 8) * 1000 + (w % 0x10) * 100 + ((w / 0x1000) % 0x10) * 10 + (w / 0x100) % 0x10
  {
    AndLowMask(w / 0x10, 8);
    AndLowMask(w, 0x10);
    AndLowMask(w / 0x1000, 0x10);
    AndLowMask(w / 0x100, 0x10);
    And(w / 0x10, 0x7) * 1000 + And(w, 0xF) * 100 + And(w / 0x1000, 0xF) * 10 + And(w / 0x100, 0xF)
  }

  /** The month of a date word: tens in bit 20, units in bits 16-19. */
  function MonthOf(w: Word): (m: nat)
    ensures m == ((w / 0x10_0000) % 2) * 10 + (w / 0x1_0000) % 0x10
  {
    AndLowMask(w / 0x10_0000, 2);
    AndLowMask(w / 0x1_0000, 0x10);
    And(w / 0x10_0000, 1) * 10 + And(w / 0x1_0000, 0xF)
  }

  /** The day of a date word: tens in bits 28-29, units in bits 24-27. */
  function DayOf(w: Word): (d: nat)
    ensures d == ((w / 0x1000_0000) % 4) * 10 + (w / 0x100_0000) % 0x10
  {
    AndLowMask(w / 0x1000_0000, 4);
    AndLowMask(w / 0x100_0000, 0x10);
    And(w / 0x1000_0000, 0x3) * 10 + And(w / 0x100_0000, 0xF)
  }

  /** The weekday of a date word, bits 21-23. */
  function WeekOf(w: Word): (k: nat)
    ensures k == (w / 0x20_0000) % 8
  {
    AndLowMask(w / 0x20_0000, 8);
    And(w / 0x20_0000, 0x7)
  }

  /**
   * `dwDate2date`: each field is read from its digits.  The output arguments
   * are optional in the driver; all four fields are returned.
   */
  function DecodeDate(w: Word): (d: CalendarDate)
    ensures d.year <= 8665 && d.month <= 25 && d.day <= 45 && d.week <= 7
  {
    CalendarDate(YearOf(w), MonthOf(w), DayOf(w), WeekOf(w))
  }

  /** A year is its thousands, hundreds, tens and units digits. */
  lemma DecimalDigits(year: nat)
    ensures (year / 1000) * 1000 + ((year / 100) % 10) * 100 + ((year / 10) % 10) * 10 + year % 10 == year
  {
    var d1 := year / 10;
    var d2 := d1 / 10;
    var d3 := d2 / 10;
    DivModUnique(year, 100, d2, 10 * (d1 % 10) + year % 10);
    DivModUnique(year, 1000, d3, 100 * (d2 % 10) + 10 * (d1 % 10) + year % 10);
  }

  /**
   * A calendar word holding the BCD digits of a year, month, weekday and day
   * that fit their fields reads back as those values.
   */
  lemma DateDigits(w: Word, year: nat, month: nat, day: nat, week: nat)
    requires year <= 7999 && month <= 19 && day <= 39 && week <= 7
    requires w == CenturyBcd(year) + YearBcd(year) * 0x100 + Bcd(month) * 0x1_0000
      + Bcd(week) * 0x20_0000 + Bcd(day) * 0x100_0000
    ensures YearOf(w) == year && MonthOf(w) == month && DayOf(w) == day && WeekOf(w) == week
  {
    CalendarBytes(year, month, day, week);
    DateBytes(w, CenturyBcd(year), YearBcd(year), Bcd(month), week % 4, week / 4, Bcd(day));
  }

  /** The BCD bytes of a date that fits its fields, and the digits they read back as. */
  lemma CalendarBytes(year: nat, month: nat, day: nat, week: nat)
    requires year <= 7999 && month <= 19 && day <= 39 && week <= 7
    ensures CenturyBcd(year) < 0x80 && YearBcd(year) < 0x100 && Bcd(month) < 0x20 && Bcd(day) < 0x40
    ensures Bcd(week) == week && week % 4 + 4 * (week / 4) == week && week / 4 < 2
    ensures (CenturyBcd(year) / 16) * 1000 + (CenturyBcd(year) % 16) * 100
      + (YearBcd(year) / 16) * 10 + YearBcd(year) % 16 == year
    ensures (Bcd(month) / 16) * 10 + Bcd(month) % 16 == month
    ensures (Bcd(day) / 16) * 10 + Bcd(day) % 16 == day
  {
    DecimalDigits(year);
  }

  /** The fields a calendar word reads back as, in terms of its BCD bytes. */
  lemma DateBytes(w: nat, c: nat, y: nat, m: nat, wk: nat, mte: nat, d: nat)
    requires DateLayout(w, c, y, m, wk, mte, d, 0)
    requires w < 0x1_0000_0000
    ensures YearOf(w) == (c / 16) * 1000 + (c % 16) * 100 + (y / 16) * 10 + y % 16
    ensures MonthOf(w) == (m / 16) * 10 + m % 16 && DayOf(w) == (d / 16) * 10 + d % 16
    ensures WeekOf(w) == wk + 4 * mte
  {
    DateLowNibbles(w, c, y, m, wk, mte, d, 0);
    DateHighNibbles(w, c, y, m, wk, mte, d, 0);
  }

  /** Every date the corrected encoder accepts reads back unchanged. */
  lemma DateRoundTrip(year: Half, month: Byte, day: Byte, week: Byte)
    requires CalculateDate(year, month, day, week) != FAIL
    ensures DecodeDate(CalculateDate(year, month, day, week)) == CalendarDate(year, month, day, week)
  {
    DateDigits(CalculateDate(year, month, day, week), year, month, day, week);
  }

  /** For years below 16000 and byte-sized BCD fields the encoder as written agrees. */
  lemma DateAsWrittenAgrees(year: Half, month: Byte, day: Byte, week: Byte)
    requires year <= 15999 && month <= 159 && day <= 159 && week <= 159
    ensures CalculateDateAsWritten(year, month, day, week) == CalculateDate(year, month, day, week)
  {
    BcdFits(year / 100);
    BcdFits(month);
    BcdFits(day);
    BcdFits(week);
  }

  /**
   * The encoder as written round-trips the calendar: years to 7999, months,
   * days and weekdays numbered from 1.
   */
  lemma DateRoundTripAsWritten(year: Half, month: Byte, day: Byte, week: Byte)
    requires year <= 7999 && 1 <= month <= 12 && 1 <= day <= 31 && 1 <= week <= 7
    ensures CalculateDateAsWritten(year, month, day, week) != FAIL
    ensures DecodeDate(CalculateDateAsWritten(year, month, day, week)) == CalendarDate(year, month, day, week)
  {
    DateAsWrittenAgrees(year, month, day, week);
    DateRoundTrip(year, month, day, week);
  }

  /**
   * A year of 16000 or more whose remainder modulo 16000 is at most 7999
   * (16000 to 23999, 32000 to 39999, 48000 to 55999, 64000 to 65535) has a
   * BCD century of 0x100 or more, whose high bits the `uint8_t` drops: as
   * written the date is accepted and reads back as the year modulo 16000.
   * The corrected encoder rejects it.
   */
  lemma CenturyTruncatedAsWritten(year: Half, month: Byte, day: Byte, week: Byte)
    requires year >= 16000 && year % 16000 <= 7999 && month <= 19 && day <= 39 && week <= 7
    ensures CalculateDateAsWritten(year, month, day, week) == CalculateDate(year % 16000, month, day, week) != FAIL
    ensures DecodeDate(CalculateDateAsWritten(year, month, day, week)) == CalendarDate(year % 16000, month, day, week)
    ensures CalculateDate(year, month, day, week) == FAIL
  {
    CenturyWraps(year);
    DateAsWrittenAgrees(year % 16000, month, day, week);
    DateRoundTrip(year % 16000, month, day, week);
  }

  /** The byte of the BCD century drops whole multiples of 16000 years; the year digits stay. */
  lemma CenturyWraps(year: nat)
    requires year % 16000 <= 7999
    ensures U8(CenturyBcd(year)) == CenturyBcd(year % 16000)
    ensures YearBcd(year) == YearBcd(year % 16000)
  {
    var k, y := year / 16000, year % 16000;
    DivModUnique(year, 100, 160 * k + y / 100, y % 100);
    DivModUnique(year, 1000, 16 * k + y / 1000, y % 1000);
    DivModUnique(year, 10, 1600 * k + y / 10, y % 10);
    DivModUnique(160 * k + y / 100, 10, 16 * k + (y / 100) / 10, (y / 100) % 10);
    DivModUnique(1600 * k + y / 10, 10, 160 * k + (y / 10) / 10, (y / 10) % 10);
    assert CenturyBcd(year) == CenturyBcd(y) + 0x100 * k;
    DivModUnique(CenturyBcd(year), 0x100, k, CenturyBcd(y));
  }

  // ---------------------------------------------------------------------
  // Alarm words
  // ---------------------------------------------------------------------

  /*
   * One match field of an alarm register: the enable bit above the tens
   * and units of the value, with the units at bit `k` and the tens at bit
   * `k + 4`.  The hour field of `RTC_TIMALR` and the month
   * field of `RTC_CALALR` both sit at bit 16 with the enable bit 23.
   */

  /** The second field of `RTC_TIMALR`, with SECEN (bit 7). */
  function MatchAt0(v: Byte): nat
  {
    Or(Or(0x80, (v / 10) * 0x10), v % 10)
  }

  /** The minute field of `RTC_TIMALR`, with MINEN (bit 15). */
  function MatchAt8(v: Byte): nat
  {
    Or(Or(0x8000, (v / 10) * 0x1000), (v % 10) * 0x100)
  }

  /** The hour field of `RTC_TIMALR` (HOUREN) and the month field of `RTC_CALALR` (MTHEN). */
  function MatchAt16(v: Byte): nat
  {
    Or(Or(0x80_0000, (v / 10) * 0x10_0000), (v % 10) * 0x1_0000)
  }

  /** The day field of `RTC_CALALR`, with DATEEN (bit 31). */
  function MatchAt24(v: Byte): nat
  {
    Or(Or(0x8000_0000, (v / 10) * 0x1000_0000), (v % 10) * 0x100_0000)
  }

  /*
   * For a value below 80 the enable bit and the two digits of a match field
   * share no bit, so the field is their sum.
   */

  lemma MatchAt0Sum(v: Byte)
    requires v < 80
    ensures MatchAt0(v) == 0x80 + (v / 10) * 0x10 + v % 10
  {
    var t: nat, u: nat := v / 10, v % 10;
    OrAbove(0x80, t * 0x10, 1, 0x80);
    OrAbove(Or(0x80, t * 0x10), u, 8 + t, 0x10);
  }

  lemma MatchAt8Sum(v: Byte)
    requires v < 80
    ensures MatchAt8(v) == 0x8000 + (v / 10) * 0x1000 + (v % 10) * 0x100
  {
    assert IsPow2(0x8000) && IsPow2(0x1000) by { Pow2Large(); }
    var t: nat, u: nat := v / 10, v % 10;
    OrAbove(0x8000, t * 0x1000, 1, 0x8000);
    OrAbove(Or(0x8000, t * 0x1000), u * 0x100, 8 + t, 0x1000);
  }

  lemma MatchAt16Sum(v: Byte)
    requires v < 80
    ensures MatchAt16(v) == 0x80_0000 + (v / 10) * 0x10_0000 + (v % 10) * 0x1_0000
  {
    assert IsPow2(0x80_0000) && IsPow2(0x10_0000) by { Pow2Large(); }
    var t: nat, u: nat := v / 10, v % 10;
    OrAbove(0x80_0000, t * 0x10_0000, 1, 0x80_0000);
    OrAbove(Or(0x80_0000, t * 0x10_0000), u * 0x1_0000, 8 + t, 0x10_0000);
  }

  lemma MatchAt24Sum(v: Byte)
    requires v < 80
    ensures MatchAt24(v) == 0x8000_0000 + (v / 10) * 0x1000_0000 + (v % 10) * 0x100_0000
  {
    assert IsPow2(0x8000_0000) && IsPow2(0x1000_0000) by { Pow2Large(); }
    var t: nat, u: nat := v / 10, v % 10;
    OrAbove(0x8000_0000, t * 0x1000_0000, 1, 0x8000_0000);
    OrAbove(Or(0x8000_0000, t * 0x1000_0000), u * 0x100_0000, 8 + t, 0x1000_0000);
  }

  /** The value of an optional argument, or 0 when it is absent. */
  function Value(v: Option<Byte>): Byte
  {
    if v.Some? then v.value else 0
  }

  /**
   * Or-ing a field into the `uint32_t` alarm word when its argument is
   * present; the word keeps the low 32 bits of the result.
   */
  function Include(alarm: Word, present: bool, field: nat): Word
  {
    if present then U32(Or(alarm, field)) else alarm
  }

  /** A field below the fields already in the word: `|` is `+`. */
  lemma IncludeBelow(alarm: Word, present: bool, field: nat, c: nat, p: nat)
    requires IsPow2(p) && alarm == c * p && alarm + p <= 0x1_0000_0000
    requires present ==> field < p
    ensures Include(alarm, present, field) == alarm + (if present then field else 0)
  {
    if present {
      OrAbove(alarm, field, c, p);
    }
  }

  /** A field above the fields already in the word: `|` is `+`. */
  lemma IncludeAbove(alarm: Word, present: bool, field: nat, c: nat, p: nat)
    requires IsPow2(p) && alarm < p
    requires present ==> field == c * p && alarm + field < 0x1_0000_0000
    ensures Include(alarm, present, field) == alarm + (if present then field else 0)
  {
    if present {
      OrAbove(field, alarm, c, p);
    }
  }

  /** The byte a given field puts into an alarm word: its enable bit and BCD value. */
  function Enabled(v: Option<Byte>): nat
  {
    if v.Some? then 0x80 + Bcd(v.value) else 0
  }

  /**
   * The `RTC_TIMALR` word `RTC_SetTimeAlarm` writes: an enable bit and the
   * BCD value for each field given, nothing for a field left out.
   */
  function TimeAlarm(hour: Option<Byte>, minute: Option<Byte>, second: Option<Byte>): (w: Word)
    ensures hour.None? && minute.None? && second.None? ==> w == 0
  {
    var a := Include(0, hour.Some?, MatchAt16(Value(hour)));
    var b := Include(a, minute.Some?, MatchAt8(Value(minute)));
    Include(b, second.Some?, MatchAt0(Value(second)))
  }

  /*
   * Each `|=` of the alarm functions adds its field's byte: the enable bit
   * and the BCD value of a given field, or nothing.
   */

  lemma IncludeAt16(alarm: Word, v: Option<Byte>)
    requires alarm == 0 && (v.Some? ==> v.value < 80)
    ensures Include(alarm, v.Some?, MatchAt16(Value(v))) == Enabled(v) * 0x1_0000
  {
    assert IsPow2(0x100_0000) by { Pow2Large(); }
    MatchAt16Sum(Value(v));
    IncludeBelow(alarm, v.Some?, MatchAt16(Value(v)), 0, 0x100_0000);
  }

  lemma IncludeAt8(alarm: Word, c: nat, v: Option<Byte>)
    requires alarm == c * 0x1_0000 && c < 0x100 && (v.Some? ==> v.value < 80)
    ensures Include(alarm, v.Some?, MatchAt8(Value(v))) == alarm + Enabled(v) * 0x100
  {
    assert IsPow2(0x1_0000) by { Pow2Large(); }
    MatchAt8Sum(Value(v));
    IncludeBelow(alarm, v.Some?, MatchAt8(Value(v)), c, 0x1_0000);
  }

  lemma IncludeAt0(alarm: Word, c: nat, v: Option<Byte>)
    requires alarm == c * 0x100 && c < 0x10000 && (v.Some? ==> v.value < 80)
    ensures Include(alarm, v.Some?, MatchAt0(Value(v))) == alarm + Enabled(v)
  {
    assert IsPow2(0x100) by { Pow2Byte(); }
    MatchAt0Sum(Value(v));
    IncludeBelow(alarm, v.Some?, MatchAt0(Value(v)), c, 0x100);
  }

  lemma IncludeAt24(alarm: Word, v: Option<Byte>)
    requires alarm < 0x100_0000 && (v.Some? ==> v.value < 80)
    ensures Include(alarm, v.Some?, MatchAt24(Value(v))) == alarm + Enabled(v) * 0x100_0000
  {
    assert IsPow2(0x100_0000) by { Pow2Large(); }
    MatchAt24Sum(Value(v));
    IncludeAbove(alarm, v.Some?, MatchAt24(Value(v)), Enabled(v), 0x100_0000);
  }

  /** Each byte of the alarm word is its field's enable bit and BCD value. */
  lemma TimeAlarmSum(hour: Option<Byte>, minute: Option<Byte>, second: Option<Byte>)
    requires hour.Some? ==> hour.value < 80
    requires minute.Some? ==> minute.value < 80
    requires second.Some? ==> second.value < 80
    ensures TimeAlarm(hour, minute, second) == Enabled(second) + Enabled(minute) * 0x100 + Enabled(hour) * 0x1_0000
  {
    var a := Include(0, hour.Some?, MatchAt16(Value(hour)));
    IncludeAt16(0, hour);
    var b := Include(a, minute.Some?, MatchAt8(Value(minute)));
    IncludeAt8(a, Enabled(hour), minute);
    IncludeAt0(b, Enabled(hour) * 0x100 + Enabled(minute), second);
  }

  /**
   * For the times of a day each byte of the alarm word is its field's enable
   * bit and BCD value, each enable bit is set exactly when its field is
   * given, and reading the word in the `RTC_TIMR` layout gives back each
   * given value.
   */
  lemma TimeAlarmFields(hour: Option<Byte>, minute: Option<Byte>, second: Option<Byte>)
    requires hour.Some? ==> hour.value < 24
    requires minute.Some? ==> minute.value < 60
    requires second.Some? ==> second.value < 60
    ensures var w := TimeAlarm(hour, minute, second);
      && w == Enabled(second) + Enabled(minute) * 0x100 + Enabled(hour) * 0x1_0000
      && ((w / 0x80_0000) % 2 == 1 <==> hour.Some?)
      && ((w / 0x8000) % 2 == 1 <==> minute.Some?)
      && ((w / 0x80) % 2 == 1 <==> second.Some?)
      && (hour.Some? ==> HourOf(w) == hour.value)
      && (minute.Some? ==> MinuteOf(w) == minute.value)
      && (second.Some? ==> SecondOf(w) == second.value)
  {
    TimeAlarmSum(hour, minute, second);
    TimeAlarmDigits(TimeAlarm(hour, minute, second), hour, minute, second);
  }

  lemma TimeAlarmDigits(w: Word, hour: Option<Byte>, minute: Option<Byte>, second: Option<Byte>)
    requires hour.Some? ==> hour.value < 40
    requires minute.Some? ==> minute.value < 80
    requires second.Some? ==> second.value < 80
    requires w == Enabled(second) + Enabled(minute) * 0x100 + Enabled(hour) * 0x1_0000
    ensures (w / 0x80_0000) % 2 == 1 <==> hour.Some?
    ensures (w / 0x8000) % 2 == 1 <==> minute.Some?
    ensures (w / 0x80) % 2 == 1 <==> second.Some?
    ensures hour.Some? ==> HourOf(w) == hour.value
    ensures minute.Some? ==> MinuteOf(w) == minute.value
    ensures second.Some? ==> SecondOf(w) == second.value
  {
    var h := if hour.Some? then Bcd(hour.value) else 0;
    var m := if minute.Some? then Bcd(minute.value) else 0;
    var s := if second.Some? then Bcd(second.value) else 0;
    var he, me, se := Bit(hour.Some?), Bit(minute.Some?), Bit(second.Some?);
    assert TimeLayout(w, s, se, m, me, h, 0, he);
    TimeLowNibbles(w, s, se, m, me, h, 0, he);
    TimeHighNibbles(w, s, se, m, me, h, 0, he);
  }

  /**
   * The `RTC_CALALR` word `RTC_SetDateAlarm` writes: an enable bit and the
   * BCD value for each field given; with neither field it is 0x01010000,
   * month 1 and day 1 with both matches disabled.
   */
  function DateAlarm(month: Option<Byte>, day: Option<Byte>): (w: Word)
    ensures month.None? && day.None? ==> w == 0x0101_0000
  {
    var initial := if month.Some? || day.Some? then 0 else 0x0101_0000;
    var a := Include(initial, month.Some?, MatchAt16(Value(month)));
    Include(a, day.Some?, MatchAt24(Value(day)))
  }

  /** With a field given, the alarm word is the sum of the given fields' bytes. */
  lemma DateAlarmSum(month: Option<Byte>, day: Option<Byte>)
    requires month.Some? || day.Some?
    requires month.Some? ==> month.value < 80
    requires day.Some? ==> day.value < 80
    ensures DateAlarm(month, day) == Enabled(month) * 0x1_0000 + Enabled(day) * 0x100_0000
  {
    var a := Include(0, month.Some?, MatchAt16(Value(month)));
    IncludeAt16(0, month);
    IncludeAt24(a, day);
  }

  lemma DateAlarmDigits(w: Word, month: Option<Byte>, day: Option<Byte>)
    requires month.Some? ==> month.value < 20
    requires day.Some? ==> day.value < 40
    requires w == if month.Some? || day.Some? then Enabled(month) * 0x1_0000 + Enabled(day) * 0x100_0000
      else 0x0101_0000
    ensures (w / 0x80_0000) % 2 == 1 <==> month.Some?
    ensures (w / 0x8000_0000) % 2 == 1 <==> day.Some?
    ensures month.Some? ==> MonthOf(w) == month.value
    ensures day.Some? ==> DayOf(w) == day.value
    ensures month.None? && day.None? ==> MonthOf(w) == 1 && DayOf(w) == 1
  {
    if month.Some? || day.Some? {
      var m := if month.Some? then Bcd(month.value) else 0;
      var d := if day.Some? then Bcd(day.value) else 0;
      assert DateLayout(w, 0, 0, m, 0, Bit(month.Some?), d, Bit(day.Some?));
      DateHighNibbles(w, 0, 0, m, 0, Bit(month.Some?), d, Bit(day.Some?));
    }
  }

  /**
   * For months below 20 and days below 40 the alarm word holds each given
   * field's enable bit and BCD value (or the null alarm), each enable bit is
   * set exactly when its field is given, and reading the word in the
   * `RTC_CALR` layout gives back each given value.
   */
  lemma DateAlarmFields(month: Option<Byte>, day: Option<Byte>)
    requires month.Some? ==> month.value < 20
    requires day.Some? ==> day.value < 40
    ensures var w := DateAlarm(month, day);
      && (month.Some? || day.Some? ==> w == Enabled(month) * 0x1_0000 + Enabled(day) * 0x100_0000)
      && ((w / 0x80_0000) % 2 == 1 <==> month.Some?)
      && ((w / 0x8000_0000) % 2 == 1 <==> day.Some?)
      && (month.Some? ==> MonthOf(w) == month.value)
      && (day.Some? ==> DayOf(w) == day.value)
      && (month.None? && day.None? ==> MonthOf(w) == 1 && DayOf(w) == 1)
  {
    if month.Some? || day.Some? {
      DateAlarmSum(month, day);
    }
    DateAlarmDigits(DateAlarm(month, day), month, day);
  }

  // ---------------------------------------------------------------------
  // Mask helpers
  // ---------------------------------------------------------------------

  /**
   * `RTC_SetHourMode`: the driver asserts that only bit 0 (HRMOD) may be
   * set, so the mode register receives 0 or 1.
   */
  function SetHourMode(mode: Word): (mr: Word)
    requires And(mode, 0xFFFF_FFFE) == 0
    ensures mr <= 1 && (mr == 1 <==> mode % 2 == 1)
  {
    assert IsPow2(0x1_0000_0000) by { Pow2Large(); }
    HighBitsClear(mode, 2, 0x1_0000_0000);
    mode
  }

  /**
   * `RTC_GetHourMode` as written: the mask keeps every bit of the mode
   * register except HRMOD, the one bit the mode lives in.
   */
  function GetHourModeAsWritten(mr: Word): (mode: Word)
    ensures mode == mr - mr % 2
  {
    assert IsPow2(0x8000_0000) by { Pow2Large(); }
    FieldParts(mr, 0x7FFF_FFFF, 2);
    Recombine(And(mr, 0xFFFF_FFFE), 2, (mr / 2) % 0x8000_0000, 0);
    And(mr, 0xFFFF_FFFE)
  }

  /** The hour mode as evidently intended: only the HRMOD bit of the mode register. */
  function GetHourMode(mr: Word): (mode: Word)
    ensures mode == mr % 2
  {
    AndLowMask(mr, 2);
    And(mr, 1)
  }

  /** As written, the mode read back is 0 for every mode that can be set. */
  lemma HourModeLostAsWritten(mode: Word)
    requires And(mode, 0xFFFF_FFFE) == 0
    ensures GetHourModeAsWritten(SetHourMode(mode)) == 0
  {
  }

  /** The corrected read gives back the mode that was set. */
  lemma HourModeRoundTrip(mode: Word)
    requires And(mode, 0xFFFF_FFFE) == 0
    ensures GetHourMode(SetHourMode(mode)) == mode
  {
  }

  /** `RTC_ClearSCCR`: only the five status-clear bits of the mask reach the register. */
  function ClearSccr(mask: Word): (r: Word)
    ensures r == mask % 0x20 && r <= mask
  {
    AndLowMask(mask, 0x20);
    And(mask, 0x1F)
  }

  /** `RTC_GetSR`: the status bits selected by the mask. */
  function GetSr(sr: Word, mask: Word): (r: Word)
    ensures r <= sr && r <= mask
    ensures And(r, mask) == r
  {
    AndBelow(sr, mask);
    AndIdempotent(sr, mask);
    And(sr, mask)
  }
}
