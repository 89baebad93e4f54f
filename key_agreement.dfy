/** How the keys written by the importer (import_ips_from_csv.py) meet the
    keys the gate (restrictIp.js) looks up. The importer writes the unsigned
    number of an address; the gate asks for `ip2int`, which is signed. The
    two agree below 128.0.0.0 and differ by 2^32 from there on, so a listed
    address whose first octet is 128 or more is never found by the gate and,
    the table being a restrict-list, passes without a token. */
module KeyAgreement {
  import opened Octets
  import opened Address
  import opened RestrictIp
  import opened ImportIps

  /** The gate's key and the importer's key for the same address. */
  lemma ImporterAndGateKeys(ip: string)
    requires IsDottedQuad(ip)
    ensures FormatIp(ip) == Ip2Int(ip) + (if OctetsOf(ip)[0] >= 128 then Two32 else 0)
    ensures FormatIp(ip) == Ip2Int(ip) <==> OctetsOf(ip)[0] < 128
  {
    Ip2IntClosedForm(ip);
    FormatIpClosedForm(ip);
  }

  /** The unsigned reading of the gate's key (`ip2int(ip) >>> 0`) is the
      importer's key for every well-formed address. */
  lemma UnsignedKeyMatchesImporter(ip: string)
    requires IsDottedQuad(ip)
    ensures Ip2IntUnsigned(ip) == FormatIp(ip)
  {
    Ip2IntUnsignedIsBigEndian(ip);
    ShiftAndSumIsBigEndian(OctetsOf(ip));
  }

  /** The table as the gate sees it: unreachable, or holding these keys. */
  datatype Table = Unreachable | Items(keys: set<int>)

  /** `dynamodb.getItem` for one key. */
  function GetItem(table: Table, key: int): LookupResult {
    match table
    case Unreachable => LookupError
    case Items(keys) => if key in keys then ItemPresent else ItemAbsent
  }

  /** The keys of the rows the importer wrote. */
  function KeysOf(rows: seq<Row>): set<int> {
    set i | 0 <= i < |rows| :: rows[i].ip
  }

  /** The rows are what ImportCsvToDynamodb produces for the lines. */
  predicate ImportedFrom(rows: seq<Row>, lines: seq<string>) {
    |rows| == |lines| &&
    forall i :: 0 <= i < |lines| ==> IsDottedQuad(lines[i]) && rows[i] == Row(FormatIp(lines[i]))
  }

  /** Some line of the file names the same address as ip. */
  predicate Listed(lines: seq<string>, ip: string)
    requires IsDottedQuad(ip)
  {
    exists j :: 0 <= j < |lines| && IsDottedQuad(lines[j]) && OctetsOf(lines[j]) == OctetsOf(ip)
  }

  /** A key is in the imported table exactly when some line's address has
      that importer key. */
  lemma ImportedKeyListed(rows: seq<Row>, lines: seq<string>, ip: string)
    requires ImportedFrom(rows, lines) && IsDottedQuad(ip)
    ensures FormatIp(ip) in KeysOf(rows) <==> Listed(lines, ip)
  {
    if FormatIp(ip) in KeysOf(rows) {
      var i :| 0 <= i < |rows| && rows[i].ip == FormatIp(ip);
      FormatIpInjective(lines[i], ip);
    }
    if Listed(lines, ip) {
      var j :| 0 <= j < |lines| && IsDottedQuad(lines[j]) && OctetsOf(lines[j]) == OctetsOf(ip);
      FormatIpInjective(lines[j], ip);
      assert rows[j].ip == FormatIp(ip);
    }
  }

  /** Below 128.0.0.0 the gate finds exactly the listed addresses. */
  lemma GateFindsListedLowAddresses(rows: seq<Row>, lines: seq<string>, ip: string)
    requires ImportedFrom(rows, lines) && IsDottedQuad(ip)
    requires OctetsOf(ip)[0] < 128
    ensures GetItem(Items(KeysOf(rows)), Ip2Int(ip)) == ItemPresent <==> Listed(lines, ip)
  {
    ImporterAndGateKeys(ip);
    ImportedKeyListed(rows, lines, ip);
  }

  /** From 128.0.0.0 on the gate never finds an imported address, listed or
      not, and so lets it through whatever `ipr` and the secret are. */
  lemma HighAddressesNeverFound(rows: seq<Row>, lines: seq<string>, ip: string)
    requires ImportedFrom(rows, lines) && IsDottedQuad(ip)
    requires OctetsOf(ip)[0] >= 128
    ensures GetItem(Items(KeysOf(rows)), Ip2Int(ip)) == ItemAbsent
    ensures forall ipr: IprParam, secret: SecretResult ::
      IpTableVerdict(GetItem(Items(KeysOf(rows)), Ip2Int(ip)), ipr, secret) == Pass
  {
    Ip2IntRange(ip);
    if Ip2Int(ip) in KeysOf(rows) {
      var i :| 0 <= i < |rows| && rows[i].ip == Ip2Int(ip);
      FormatIpRange(lines[i]);
    }
  }

  /** A concrete case: 192.168.0.1 is the only line of the file, yet the
      gate's lookup for 192.168.0.1 misses and the request passes. */
  lemma ListedAddressPassesUnchecked()
    ensures var ip := Render([192, 168, 0, 1]);
      IsDottedQuad(ip) && Listed([ip], ip) &&
      GetItem(Items(KeysOf([Row(FormatIp(ip))])), Ip2Int(ip)) == ItemAbsent &&
      IpTableVerdict(GetItem(Items(KeysOf([Row(FormatIp(ip))])), Ip2Int(ip)), NoIpr, FetchError) == Pass
  {
    var o := [192, 168, 0, 1];
    RenderParses(o);
    var ip := Render(o);
    assert ImportedFrom([Row(FormatIp(ip))], [ip]);
    assert OctetsOf([ip][0]) == OctetsOf(ip);
    HighAddressesNeverFound([Row(FormatIp(ip))], [ip], ip);
  }

  /** With the unsigned key the gate finds exactly the listed addresses,
      whatever the first octet. */
  lemma UnsignedGateFindsExactlyListed(rows: seq<Row>, lines: seq<string>, ip: string)
    requires ImportedFrom(rows, lines) && IsDottedQuad(ip)
    ensures GetItem(Items(KeysOf(rows)), Ip2IntUnsigned(ip)) == ItemPresent <==> Listed(lines, ip)
  {
    UnsignedKeyMatchesImporter(ip);
    ImportedKeyListed(rows, lines, ip);
  }
}
