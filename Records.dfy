/**
 * One transaction-log record: seven text fields joined by the separator the
 * `-p` flag selects.
 */
module Records {
  import opened Results
  import opened Delimited

  /** The seven fields in the order they appear on a line. */
  datatype Record = Record(
    ip: string,
    userId: string,
    timestamp: string,
    amount: string,
    transactionId: string,
    ccNumber: string,
    orderId: string)

  function FieldsOf(r: Record): seq<string> {
    [r.ip, r.userId, r.timestamp, r.amount, r.transactionId, r.ccNumber, r.orderId]
  }

  /** The `-p` flag: 'c' selects a comma, anything else a tab. */
  function SeparatorFor(flag: char): (sep: char)
    ensures sep == ',' <==> flag == 'c'
    ensures sep == '\t' <==> flag != 'c'
  {
    if flag == 'c' then ',' else '\t'
  }

  /** No field of the record holds the separator. */
  predicate FreeOf(r: Record, sep: char) {
    forall i :: 0 <= i < 7 ==> sep !in FieldsOf(r)[i]
  }

  /**
   * The log line: the fields concatenated in their fixed order with a
   * separator between neighbours, which is the join of the field list.
   */
  function Assemble(r: Record, sep: char): (line: string)
    ensures line == Join(FieldsOf(r), sep)
  {
    AssembleIsJoin(r, sep);
    r.ip + [sep] + r.userId + [sep] + r.timestamp + [sep] + r.amount + [sep] +
    r.transactionId + [sep] + r.ccNumber + [sep] + r.orderId
  }

  lemma AssembleIsJoin(r: Record, sep: char)
    ensures Join(FieldsOf(r), sep) ==
      r.ip + [sep] + r.userId + [sep] + r.timestamp + [sep] + r.amount + [sep] +
      r.transactionId + [sep] + r.ccNumber + [sep] + r.orderId
  {
    var f := FieldsOf(r);
    assert f[..1] == [r.ip];
    JoinPrefix(f, 1, sep);
    JoinPrefix(f, 2, sep);
    JoinPrefix(f, 3, sep);
    JoinPrefix(f, 4, sep);
    JoinPrefix(f, 5, sep);
    JoinPrefix(f, 6, sep);
    assert f[..7] == f;
  }

  /** Reads a line back: seven separator-delimited pieces, or nothing. */
  function ParseRecord(line: string, sep: char): Option<Record> {
    var parts := Split(line, sep);
    if |parts| == 7
    then Some(Record(parts[0], parts[1], parts[2], parts[3], parts[4], parts[5], parts[6]))
    else None
  }

  /**
   * When no field holds the separator, the line holds exactly six separators
   * and splitting it gives back the seven fields in order.
   */
  lemma AssembleRoundTrip(r: Record, sep: char)
    requires FreeOf(r, sep)
    ensures Split(Assemble(r, sep), sep) == FieldsOf(r)
    ensures multiset(Assemble(r, sep))[sep] == 6
    ensures ParseRecord(Assemble(r, sep), sep) == Some(r)
  {
    SplitJoin(FieldsOf(r), sep);
    JoinSeparatorCount(FieldsOf(r), sep);
  }

  /** Whatever reads as a record is exactly the line assembled from it. */
  lemma ParseRecordSound(line: string, sep: char, r: Record)
    requires ParseRecord(line, sep) == Some(r)
    ensures FreeOf(r, sep)
    ensures Assemble(r, sep) == line
  {
    var parts := Split(line, sep);
    assert FieldsOf(r) == parts;
    JoinSplit(line, sep);
  }
}
