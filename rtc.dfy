/**
  Decoding of the battery-backed real-time clock (a Motorola MC146818-style
  CMOS clock) as `read_rtc` and `wait_til_not_updating` do it.

  Register values are bytes (`bv8`, Rust's `u8`), so masks, division and the
  wrap-around of `u8` arithmetic are those of the source; the contracts state
  the results as integers, which also shows that no `u8` operation overflows.
  The port I/O that fetches a register (`get_reg`) is not modelled: the
  register values are parameters.
*/
module Rtc {
  import opened Wrappers

  /** Register B bit 2: set when the clock reports binary values, clear for BCD. */
  const BINARY_MODE: bv8 := 0x04
  /** The register A bit that `wait_til_not_updating` tests (bit 6). */
  const POLLED_BIT: bv8 := 0x40
  /** The update-in-progress flag of register A in the MC146818 datasheet (bit 7). */
  const UPDATE_IN_PROGRESS: bv8 := 0x80
  /** Bit 7 of the hour register: the PM flag in 12-hour mode. */
  const HOUR_PM: bv8 := 0x80
  /** The century that `read_rtc` adds to the two-digit year. */
  const CENTURY: int := 2000

  // ---------------------------------------------------------------------------
  // Binary-coded decimal

  /** Both nibbles of `b` are decimal digits. */
  predicate IsBcd(b: bv8) {
    b & 0x0F <= 9 && b / 16 <= 9
  }

  /** The conversion applied to second, minute, day, month and year. */
  function BcdToBinary(b: bv8): (r: bv8)
    ensures r as bv16 == (b as bv16 & 0x0F) + (b as bv16 >> 4) * 10
    ensures r <= 165
    ensures IsBcd(b) ==> r <= 99 && r / 10 == b >> 4 && r % 10 == b & 0x0F
  {
    (b & 0x0F) + ((b / 16) * 10)
  }

  /** The BCD byte that a clock in BCD mode reports for the value `n`. */
  function BinaryToBcd(n: bv8): (b: bv8)
    requires n <= 99
    ensures IsBcd(b)
    ensures b >> 4 == n / 10 && b & 0x0F == n % 10
  {
    (n / 10) * 16 + n % 10
  }

  /** Decoding the BCD encoding of any two-digit value gives it back. */
  lemma BcdRoundTrip(n: bv8)
    requires n <= 99
    ensures BcdToBinary(BinaryToBcd(n)) == n
  {
  }

  /** Every valid BCD byte is the encoding of its decoded value. */
  lemma BcdRoundTripBack(b: bv8)
    requires IsBcd(b)
    ensures BcdToBinary(b) <= 99 && BinaryToBcd(BcdToBinary(b)) == b
  {
  }

  /**
    The hour conversion: only bits 0-6 are BCD (tens digit under mask 0x70),
    bit 7 is carried over unchanged.
  */
  function HourBcdToBinary(h: bv8): (r: bv8)
    ensures r & HOUR_PM == h & HOUR_PM
    ensures (r & 0x7F) as bv16 == (h as bv16 & 0x0F) + ((h as bv16 >> 4) & 0x07) * 10
    ensures r & 0x7F <= 85
  {
    ((h & 0x0F) + (((h & 0x70) / 16) * 10)) | (h & 0x80)
  }

  /** An hour whose low seven bits are below 80, reported in BCD with its PM flag, decodes to itself. */
  lemma HourRoundTrip(h: bv8)
    requires h & 0x7F <= 79
    ensures HourBcdToBinary(BinaryToBcd(h & 0x7F) | (h & HOUR_PM)) == h
  {
  }

  /** The other direction: an hour byte whose units digit is a BCD digit is re-encoded exactly, PM flag included. */
  lemma HourRoundTripBack(h: bv8)
    requires h & 0x0F <= 9
    ensures HourBcdToBinary(h) & 0x7F <= 79
    ensures BinaryToBcd(HourBcdToBinary(h) & 0x7F) | (HourBcdToBinary(h) & HOUR_PM) == h
  {
  }

  // ---------------------------------------------------------------------------
  // read_rtc

  /** The register values `read_rtc` fetches, in the clock's own encoding. */
  datatype ClockRegisters = ClockRegisters(
    statusB: bv8, second: bv8, minute: bv8, hour: bv8, day: bv8, month: bv8, year: bv8)

  /** The six time fields after the optional BCD conversion. */
  datatype ClockValues = ClockValues(
    second: bv8, minute: bv8, hour: bv8, day: bv8, month: bv8, year: bv8)

  /** The values handed to the date and time constructors of the `time` crate. */
  datatype DateTimeFields = DateTimeFields(
    year: int, month: nat, day: bv8, hour: bv8, minute: bv8, second: bv8)

  datatype RtcError = InvalidMonth(month: bv8)

  /** True when register B says the clock reports BCD values. */
  predicate InBcdMode(statusB: bv8) {
    statusB & BINARY_MODE == 0
  }

  /** The six fields, converted from BCD only when register B asks for it. */
  function ConvertRegisters(regs: ClockRegisters): (v: ClockValues)
  {
    if InBcdMode(regs.statusB) then
      ClockValues(BcdToBinary(regs.second), BcdToBinary(regs.minute),
                  HourBcdToBinary(regs.hour), BcdToBinary(regs.day),
                  BcdToBinary(regs.month), BcdToBinary(regs.year))
    else
      ClockValues(regs.second, regs.minute, regs.hour, regs.day, regs.month, regs.year)
  }

  /** The registers a clock reporting `v` shows in BCD mode. */
  function EncodeBcd(statusB: bv8, v: ClockValues): (regs: ClockRegisters)
    requires InBcdMode(statusB)
    requires v.second <= 99 && v.minute <= 99 && v.hour & 0x7F <= 79
    requires v.day <= 99 && v.month <= 99 && v.year <= 99
    ensures regs.statusB == statusB
  {
    ClockRegisters(statusB, BinaryToBcd(v.second), BinaryToBcd(v.minute),
                   BinaryToBcd(v.hour & 0x7F) | (v.hour & HOUR_PM),
                   BinaryToBcd(v.day), BinaryToBcd(v.month), BinaryToBcd(v.year))
  }

  /**
    Whatever mode the clock is in, the converted values are the clock's
    values: in binary mode they pass through unchanged, in BCD mode the
    conversion undoes the clock's encoding.
  */
  lemma ConvertRecoversClock(statusB: bv8, v: ClockValues)
    requires v.second <= 99 && v.minute <= 99 && v.hour & 0x7F <= 79
    requires v.day <= 99 && v.month <= 99 && v.year <= 99
    ensures !InBcdMode(statusB) ==>
      ConvertRegisters(ClockRegisters(statusB, v.second, v.minute, v.hour, v.day, v.month, v.year)) == v
    ensures InBcdMode(statusB) ==> ConvertRegisters(EncodeBcd(statusB, v)) == v
  {
    if InBcdMode(statusB) {
      BcdRoundTrip(v.second);
      BcdRoundTrip(v.minute);
      BcdRoundTrip(v.day);
      BcdRoundTrip(v.month);
      BcdRoundTrip(v.year);
      HourRoundTrip(v.hour);
    }
  }

  /** In binary mode (register B bit 2 set) every one of the six bytes passes through unchanged, whatever its value. */
  lemma ConvertBinaryPassesThrough(regs: ClockRegisters)
    requires !InBcdMode(regs.statusB)
    ensures ConvertRegisters(regs)
         == ClockValues(regs.second, regs.minute, regs.hour, regs.day, regs.month, regs.year)
  {
  }

  /**
    `read_rtc` after the wait: convert, widen the year, and reject a month
    outside 1..12 (a panic in the source). The checks of the `time` crate on
    day, hour, minute and second are not part of this model.
  */
  function ReadRtc(regs: ClockRegisters): (r: Result<DateTimeFields, RtcError>)
    ensures var v := ConvertRegisters(regs);
            r.Ok? <==> 1 <= v.month <= 12
    ensures r.Err? ==> r.error == InvalidMonth(ConvertRegisters(regs).month)
    ensures r.Ok? ==>
              var v := ConvertRegisters(regs);
              r.value == DateTimeFields(CENTURY + v.year as int, v.month as nat, v.day, v.hour, v.minute, v.second)
    ensures r.Ok? ==> CENTURY <= r.value.year <= CENTURY + 255 && 1 <= r.value.month <= 12
    ensures r.Ok? && InBcdMode(regs.statusB) ==> r.value.year <= CENTURY + 165
    ensures r.Ok? && InBcdMode(regs.statusB) && IsBcd(regs.year) ==> r.value.year <= CENTURY + 99
  {
    var v := ConvertRegisters(regs);
    var fullYear := CENTURY + v.year as int;
    if 1 <= v.month <= 12 then
      Ok(DateTimeFields(fullYear, v.month as nat, v.day, v.hour, v.minute, v.second))
    else
      Err(InvalidMonth(v.month))
  }

  /** A clock in binary mode yields its raw register bytes, the year widened by the century, whenever the month byte is 1..12. */
  lemma ReadRtcBinaryDate(regs: ClockRegisters)
    requires !InBcdMode(regs.statusB) && 1 <= regs.month <= 12
    ensures ReadRtc(regs)
         == Ok(DateTimeFields(CENTURY + regs.year as int, regs.month as nat, regs.day, regs.hour, regs.minute, regs.second))
  {
    ConvertBinaryPassesThrough(regs);
  }

  /** A clock in BCD mode showing a valid date yields that date, year widened by the century. */
  lemma ReadRtcBcdDate(statusB: bv8, v: ClockValues)
    requires InBcdMode(statusB)
    requires v.second <= 99 && v.minute <= 99 && v.hour & 0x7F <= 79
    requires v.day <= 99 && 1 <= v.month <= 12 && v.year <= 99
    ensures ReadRtc(EncodeBcd(statusB, v))
         == Ok(DateTimeFields(CENTURY + v.year as int, v.month as nat, v.day, v.hour, v.minute, v.second))
  {
    ConvertRecoversClock(statusB, v);
  }

  // ---------------------------------------------------------------------------
  // wait_til_not_updating

  /** No bit of `mask` is set in the register value `x`. */
  predicate Clear(x: bv8, mask: bv8) {
    x & mask == 0
  }

  /** The index of the first read in which every bit of `mask` is clear, if any. */
  function FirstClear(samples: seq<bv8>, mask: bv8): (r: Option<nat>)
    decreases |samples|
  {
    if samples == [] then None
    else if Clear(samples[0], mask) then Some(0)
    else match FirstClear(samples[1..], mask)
      case None => None
      case Some(k) => Some(k + 1)
  }

  /** FirstClear finds the first clear read and only that one; None means none is clear. */
  lemma {:induction false} FirstClearIsFirst(samples: seq<bv8>, mask: bv8)
    ensures var r := FirstClear(samples, mask);
            (r.Some? ==> r.value < |samples| && Clear(samples[r.value], mask)
                         && forall j :: 0 <= j < r.value ==> !Clear(samples[j], mask))
            && (r.None? ==> forall j :: 0 <= j < |samples| ==> !Clear(samples[j], mask))
  {
    if samples != [] && !Clear(samples[0], mask) {
      FirstClearIsFirst(samples[1..], mask);
      assert forall j :: 1 <= j < |samples| ==> samples[j] == samples[1..][j - 1];
    }
  }

  /**
    The polling loop over successive reads of register A, stopping at the
    first read whose bits under `mask` are clear. The source loops forever
    while the bit stays set; here the reads are finite and None means the
    loop is still polling after the last of them.
  */
  method PollUntilClear(samples: seq<bv8>, mask: bv8) returns (r: Option<nat>)
    ensures r == FirstClear(samples, mask)
  {
    var i := 0;
    while i < |samples|
      invariant 0 <= i <= |samples|
      invariant FirstClear(samples, mask) == Offset(FirstClear(samples[i..], mask), i)
    {
      if Clear(samples[i], mask) {
        return Some(i);
      }
      assert samples[i..][1..] == samples[i + 1..];
      i := i + 1;
    }
    r := None;
  }

  /** `k` shifted by `i`, absent stays absent. */
  function Offset(k: Option<nat>, i: nat): Option<nat> {
    match k
    case None => None
    case Some(n) => Some(n + i)
  }

  /** `wait_til_not_updating` as written: it tests bit 6 (0x40) of register A. */
  method WaitTilNotUpdating(samples: seq<bv8>) returns (r: Option<nat>)
    ensures r.Some? ==> r.value < |samples| && Clear(samples[r.value], POLLED_BIT)
    ensures r.Some? ==> forall j :: 0 <= j < r.value ==> !Clear(samples[j], POLLED_BIT)
    ensures r.None? ==> forall j :: 0 <= j < |samples| ==> !Clear(samples[j], POLLED_BIT)
  {
    r := PollUntilClear(samples, POLLED_BIT);
    FirstClearIsFirst(samples, POLLED_BIT);
  }

  /**
    The loop as written returns while an update is in progress: 0xA6 is
    register A with the update-in-progress bit set and the usual 32.768 kHz
    divider (0b010) and rate (0b0110) bits, and bit 6 is clear in it.
  */
  lemma PolledBitMissesUpdateInProgress()
    ensures FirstClear([0xA6], POLLED_BIT) == Some(0)
    ensures 0xA6 as bv8 & UPDATE_IN_PROGRESS != 0
  {
  }

  /**
    Bits 6-4 of register A select the time base; for the standard
    32.768 kHz crystal they are 0b010, so bit 6 is clear and the wait as
    written returns at the first read, whatever the update-in-progress bit
    says.
  */
  lemma StandardDividerNeverWaits(samples: seq<bv8>)
    requires |samples| >= 1 && samples[0] & 0x70 == 0x20
    ensures FirstClear(samples, POLLED_BIT) == Some(0)
  {
  }

  /** The wait with the datasheet's update-in-progress bit (bit 7, 0x80). */
  method WaitTilUpdateComplete(samples: seq<bv8>) returns (r: Option<nat>)
    ensures r.Some? ==> r.value < |samples| && Clear(samples[r.value], UPDATE_IN_PROGRESS)
    ensures r.Some? ==> forall j :: 0 <= j < r.value ==> !Clear(samples[j], UPDATE_IN_PROGRESS)
    ensures r.None? ==> forall j :: 0 <= j < |samples| ==> !Clear(samples[j], UPDATE_IN_PROGRESS)
  {
    r := PollUntilClear(samples, UPDATE_IN_PROGRESS);
    FirstClearIsFirst(samples, UPDATE_IN_PROGRESS);
  }
}
