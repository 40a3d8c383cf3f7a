/**
 * The main block of the generator: the run-configuration checks, the
 * separator choice and the counted loops that emit one record per iteration.
 * The log sink is modelled as the sequence of lines emitted, in order.
 */
module Generator {
  import opened Results
  import opened Decimal
  import Fields
  import opened Records

  /** The `-m` flag, restricted by the argument parser to 'r' and 'h'. */
  datatype Mode = RealTime | Historical

  datatype ConfigError =
    | HistoricalWithoutCount  // historical mode needs a number of events
    | NegativeCount           // the number of events cannot be negative

  /**
   * The checks made before anything is generated: a historical run with count
   * 0 fails first, then any negative count fails; everything else proceeds.
   */
  function CheckConfig(mode: Mode, count: int): (r: Result<(), ConfigError>)
    ensures r.Ok? <==> count >= 0 && !(mode == Historical && count == 0)
    ensures r == Err(HistoricalWithoutCount) <==> mode == Historical && count == 0
    ensures r == Err(NegativeCount) <==> count < 0
  {
    if mode == Historical && count == 0 then Err(HistoricalWithoutCount)
    else if count < 0 then Err(NegativeCount)
    else Ok(())
  }

  /**
   * Everything one record draws from outside this code: the random draws of
   * the field generators, and the timestamp, purchase amount and transaction
   * id, which come from the clock, floating point and the UUID library.
   */
  datatype RecordDraws = RecordDraws(
    octets: seq<int>,
    userDraw: int,
    timestamp: string,
    amount: string,
    transactionId: string,
    lastFourDraw: int,
    kindDraw: int,
    orderChoices: seq<int>)

  /** The ranges the generators draw from, with their default arguments. */
  predicate IsValidDraws(d: RecordDraws) {
    && Fields.IsOctetDraws(d.octets)
    && 1 <= d.userDraw <= Fields.DefaultMaxCount
    && 1 <= d.lastFourDraw <= 9999
    && 1 <= d.kindDraw <= 100
    && Fields.IsChoiceDraws(Fields.DefaultOrderIdSize, d.orderChoices)
  }

  /** The record one loop iteration builds from its draws. */
  function GenerateRecord(d: RecordDraws): Record
    requires IsValidDraws(d)
  {
    Record(
      Fields.DottedQuad(d.octets),
      Fields.UserId(Fields.DefaultMaxCount, d.userDraw),
      d.timestamp,
      d.amount,
      d.transactionId,
      Fields.CcNumberMasked(d.lastFourDraw, d.kindDraw),
      Fields.OrderId(Fields.DefaultOrderIdSize, d.orderChoices))
  }

  lemma DigitsFreeOf(s: string, sep: char)
    requires IsDigits(s) && !IsDigit(sep)
    ensures sep !in s
  {
    forall i | 0 <= i < |s| ensures s[i] != sep {
      assert IsDigit(s[i]);
    }
  }

  /** The fields the generators build never hold the comma or the tab. */
  lemma GeneratedFieldsFreeOfSeparator(d: RecordDraws, sep: char)
    requires IsValidDraws(d)
    requires sep == ',' || sep == '\t'
    ensures var r := GenerateRecord(d);
      sep !in r.ip && sep !in r.userId && sep !in r.ccNumber && sep !in r.orderId
  {
    var r := GenerateRecord(d);
    Fields.DottedQuadShape(d.octets);
    DigitsFreeOf(r.userId, sep);
    var cc := r.ccNumber;
    var tail := cc[|cc| - 4..];
    DigitsFreeOf(tail, sep);
    forall i | 0 <= i < |cc| ensures cc[i] != sep {
      if i >= |cc| - 4 {
        assert cc[i] == tail[i - (|cc| - 4)];
      }
    }
    forall i | 0 <= i < |r.orderId| ensures r.orderId[i] != sep {
      assert Fields.IsOrderChar(r.orderId[i]);
    }
  }

  /**
   * A line emitted with the separator the flag selects reads back as the
   * generated record, as long as the three externally supplied fields do not
   * hold the separator; the address then reads back as the octets drawn and
   * the user id as the number drawn.
   */
  lemma RecordLineRoundTrip(d: RecordDraws, flag: char)
    requires IsValidDraws(d)
    requires var sep := SeparatorFor(flag);
      sep !in d.timestamp && sep !in d.amount && sep !in d.transactionId
    ensures var sep := SeparatorFor(flag);
      var r := GenerateRecord(d);
      && ParseRecord(Assemble(r, sep), sep) == Some(r)
      && multiset(Assemble(r, sep))[sep] == 6
      && Fields.ParseDottedQuad(r.ip) == Some(d.octets)
      && StrToNat(r.userId) == d.userDraw
  {
    var sep := SeparatorFor(flag);
    var r := GenerateRecord(d);
    GeneratedFieldsFreeOfSeparator(d, sep);
    assert FreeOf(r, sep);
    AssembleRoundTrip(r, sep);
    Fields.DottedQuadRoundTrip(d.octets);
  }

  /** One iteration's record line: the generators called in field order, then joined. */
  method EmitOne(d: RecordDraws, sep: char) returns (entry: string)
    requires IsValidDraws(d)
    ensures entry == Assemble(GenerateRecord(d), sep)
  {
    var ip := Fields.IpAddress(d.octets);
    entry := Assemble(Record(
      ip,
      Fields.UserId(Fields.DefaultMaxCount, d.userDraw),
      d.timestamp,
      d.amount,
      d.transactionId,
      Fields.CcNumberMasked(d.lastFourDraw, d.kindDraw),
      Fields.OrderId(Fields.DefaultOrderIdSize, d.orderChoices)), sep);
  }

  /**
   * The longest whole-second sleep CPython accepts: `time.sleep` converts its
   * argument to a signed 64-bit count of nanoseconds, and 2^63 - 1 ns is just
   * over 9223372036 s.
   */
  const MaxSleepSeconds := 9223372036

  /**
   * Whether `time.sleep(freq)` returns: `-f` is an unchecked integer, and the
   * call raises `ValueError` for a negative length and `OverflowError` for
   * one beyond MaxSleepSeconds.
   */
  predicate SleepSucceeds(freq: int) {
    0 <= freq <= MaxSleepSeconds
  }

  /**
   * A counted loop of the main block: `count` iterations, each emitting one
   * record line and then sleeping `freq` seconds. A sleep that raises ends the
   * loop right after the first line; otherwise all `count` lines are emitted.
   */
  method EmitBounded(count: nat, freq: int, sep: char, draws: seq<RecordDraws>)
    returns (lines: seq<string>, completed: bool)
    requires count <= |draws|
    requires forall i :: 0 <= i < count ==> IsValidDraws(draws[i])
    ensures completed <==> count == 0 || SleepSucceeds(freq)
    ensures |lines| == if completed then count else 1
    ensures forall i :: 0 <= i < |lines| ==> lines[i] == Assemble(GenerateRecord(draws[i]), sep)
  {
    lines := [];
    for i := 0 to count
      invariant |lines| == i
      invariant !SleepSucceeds(freq) ==> i == 0
      invariant forall j :: 0 <= j < i ==> lines[j] == Assemble(GenerateRecord(draws[j]), sep)
    {
      var entry := EmitOne(draws[i], sep);
      lines := lines + [entry];
      if !SleepSucceeds(freq) {
        return lines, false;
      }
    }
    completed := true;
  }

  /**
   * How a run ends: rejected before generating, unbounded, with all its
   * lines, or stopped by a failing sleep after the lines it had emitted.
   */
  datatype RunOutcome =
    | Rejected(error: ConfigError)
    | Unbounded
    | Emitted(lines: seq<string>)
    | SleepFailed(lines: seq<string>)

  /**
   * The main block after argument parsing: check the configuration, choose
   * the separator, then dispatch on the mode. A real-time run with count 0
   * and a valid pacing never stops; with an invalid pacing any accepted run
   * stops after its first line; every other accepted run emits exactly
   * `count` lines, the i-th built from the i-th draws.
   */
  method Run(mode: Mode, count: int, freq: int, separatorFlag: char, draws: seq<RecordDraws>)
    returns (outcome: RunOutcome)
    requires count <= |draws| && 1 <= |draws|
    requires forall i :: 0 <= i < |draws| ==> IsValidDraws(draws[i])
    ensures CheckConfig(mode, count).Err? ==> outcome == Rejected(CheckConfig(mode, count).error)
    ensures outcome.Rejected? <==> count < 0 || (mode == Historical && count == 0)
    ensures outcome.Unbounded? <==> mode == RealTime && count == 0 && SleepSucceeds(freq)
    ensures outcome.Emitted? <==> count > 0 && SleepSucceeds(freq)
    ensures outcome.SleepFailed? <==> CheckConfig(mode, count).Ok? && !SleepSucceeds(freq)
    ensures outcome.Emitted? ==> |outcome.lines| == count
    ensures outcome.SleepFailed? ==> |outcome.lines| == 1
    ensures (outcome.Emitted? || outcome.SleepFailed?) ==>
      forall i :: 0 <= i < |outcome.lines| ==>
        outcome.lines[i] == Assemble(GenerateRecord(draws[i]), SeparatorFor(separatorFlag))
  {
    var check := CheckConfig(mode, count);
    if check.Err? {
      return Rejected(check.error);
    }
    var sep := SeparatorFor(separatorFlag);
    if mode == RealTime {
      if count == 0 {
        // the endless loop: only its first pass is modelled, which ends it
        // when the sleep raises
        if SleepSucceeds(freq) {
          outcome := Unbounded;
        } else {
          var entry := EmitOne(draws[0], sep);
          outcome := SleepFailed([entry]);
        }
      } else {
        var lines, completed := EmitBounded(count, freq, sep, draws);
        outcome := if completed then Emitted(lines) else SleepFailed(lines);
      }
    } else {
      var lines, completed := EmitBounded(count, freq, sep, draws);
      outcome := if completed then Emitted(lines) else SleepFailed(lines);
    }
  }
}
