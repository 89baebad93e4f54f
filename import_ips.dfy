/** The table loader of import_ips_from_csv.py: each line of the input file
    holds one dotted-quad address; it is encoded by `format_ip` and written
    to the table as an item `{'ip': key}` through a DynamoDB batch writer.
    The file, the command line and the AWS session are outside the model:
    the lines are an input and the batch writer is a class that records what
    was put. */
module ImportIps {
  import opened Octets
  import opened Address

  /** `reduce(shift_and_sum, parts)` with no initial value: the first part
      starts the accumulator and `shift_and_sum(x, y) = (x << 8) + y` folds in
      the rest, on Python's unbounded integers. */
  function ShiftAndSumFold(parts: seq<int>): int
    requires |parts| >= 1
  {
    if |parts| == 1 then parts[0]
    else ShiftAndSumFold(parts[..|parts| - 1]) * 256 + parts[|parts| - 1]
  }

  /** `format_ip(ip)` on a well-formed dotted quad. */
  function FormatIp(ip: string): int
    requires IsDottedQuad(ip)
  {
    ShiftAndSumFold(OctetsOf(ip))
  }

  /** The fold computes the big-endian number of the parts, for any count. */
  lemma {:induction false} ShiftAndSumIsBigEndian(parts: seq<int>)
    requires |parts| >= 1
    ensures ShiftAndSumFold(parts) == BigEndian(parts)
  {
    var n := |parts|;
    if n == 1 {
      assert parts[1..] == [];
    } else {
      var front, last := parts[..n - 1], parts[n - 1];
      ShiftAndSumIsBigEndian(front);
      BigEndianSnoc(front, last);
      assert front + [last] == parts;
    }
  }

  /** Closed form: ((o1·256 + o2)·256 + o3)·256 + o4, with no wrap. */
  lemma FormatIpClosedForm(ip: string)
    requires IsDottedQuad(ip)
    ensures var o := OctetsOf(ip);
      FormatIp(ip) == ((o[0] * 256 + o[1]) * 256 + o[2]) * 256 + o[3]
  {
    var o := OctetsOf(ip);
    ShiftAndSumIsBigEndian(o);
    BigEndianFour(o);
  }

  /** The key is an unsigned 32-bit number. */
  lemma FormatIpRange(ip: string)
    requires IsDottedQuad(ip)
    ensures 0 <= FormatIp(ip) < Two32
  {
    var o := OctetsOf(ip);
    ShiftAndSumIsBigEndian(o);
    BigEndianBounds(o);
    assert Pow256(4) == Two32;
  }

  /** Two well-formed addresses get the same key exactly when their octets
      are the same. */
  lemma FormatIpInjective(a: string, b: string)
    requires IsDottedQuad(a) && IsDottedQuad(b)
    ensures FormatIp(a) == FormatIp(b) <==> OctetsOf(a) == OctetsOf(b)
  {
    if FormatIp(a) == FormatIp(b) {
      ShiftAndSumIsBigEndian(OctetsOf(a));
      ShiftAndSumIsBigEndian(OctetsOf(b));
      BigEndianInjective(OctetsOf(a), OctetsOf(b));
    }
  }

  /** On addresses written the usual way (no leading zeros), two lines get
      the same key exactly when they are the same text. */
  lemma FormatIpInjectiveOnText(a: string, b: string)
    requires IsCanonicalQuad(a) && IsCanonicalQuad(b)
    ensures FormatIp(a) == FormatIp(b) <==> a == b
  {
    FormatIpInjective(a, b);
    CanonicalQuadsByOctets(a, b);
  }

  /** One table item: `{'ip': key}`. */
  datatype Row = Row(ip: int)

  /** The part of DynamoDB's batch writer the loader uses: the items put so
      far, in order. */
  class BatchWriter {
    var items: seq<Row>

    constructor ()
      ensures items == []
    {
      items := [];
    }

    method PutItem(item: Row)
      modifies this
      ensures items == old(items) + [item]
    {
      items := items + [item];
    }
  }

  /** The loop of `import_csv_to_dynamodb`: one row per line, in input
      order, each keyed by `format_ip` of its line. */
  method ImportCsvToDynamodb(lines: seq<string>) returns (batch: BatchWriter)
    requires forall i :: 0 <= i < |lines| ==> IsDottedQuad(lines[i])
    ensures |batch.items| == |lines|
    ensures forall i :: 0 <= i < |lines| ==> batch.items[i] == Row(FormatIp(lines[i]))
  {
    batch := new BatchWriter();
    var no := 0;
    while no < |lines|
      invariant 0 <= no <= |lines|
      invariant |batch.items| == no
      invariant forall i :: 0 <= i < no ==> batch.items[i] == Row(FormatIp(lines[i]))
    {
      var row := Row(FormatIp(lines[no]));
      batch.PutItem(row);
      no := no + 1;
    }
  }
}
