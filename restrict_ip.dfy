/** The Lambda@Edge gate of restrictIp.js. The client address is encoded as
    a number (`ip2int`) and looked up in a DynamoDB table that the code
    treats as a RESTRICT-list: an address without an item passes at once; an
    address with an item must carry an `ipr` query parameter equal to a
    secret kept in SSM, or the request is rewritten to the restricted page.

    The two reads (DynamoDB `getItem`, SSM `getParameter`) and the query
    string parser are outside the model: their outcomes are the inputs
    LookupResult, SecretResult and IprParam. The callback is modelled by the
    verdict a method returns. */
module RestrictIp {
  import opened Octets
  import opened Address
  import opened JsInt32

  const RestrictedUri: string := "/restricted.html"

  // ---------------------------------------------------------------------
  // ip2int
  // ---------------------------------------------------------------------

  /** `octets.reduce((ipInt, octet) => (ipInt << 8) + octet, 0)`, a left fold
      whose shift wraps to 32 bits. */
  function ShiftFold(octets: seq<int>): int {
    if octets == [] then 0
    else ShiftLeft8(ShiftFold(octets[..|octets| - 1])) + octets[|octets| - 1]
  }

  /** `ip2int(ip)` on a well-formed dotted quad. */
  function Ip2Int(ip: string): int
    requires IsDottedQuad(ip)
  {
    ShiftFold(OctetsOf(ip))
  }

  /** For octets of any count, the fold is the big-endian number wrapped to
      a signed 32-bit value. */
  lemma {:induction false} ShiftFoldIsInt32Wrap(octets: seq<int>)
    requires IsOctets(octets)
    ensures ShiftFold(octets) == ToInt32(BigEndian(octets))
  {
    if octets != [] {
      var n := |octets|;
      var front, last := octets[..n - 1], octets[n - 1];
      ShiftFoldIsInt32Wrap(front);
      // ShiftLeft8 reads its operand through ToInt32, which is idempotent
      assert ToInt32(ShiftFold(front)) == ToInt32(BigEndian(front));
      assert ShiftLeft8(ShiftFold(front)) == ShiftLeft8(BigEndian(front));
      ShiftLeft8Add(BigEndian(front), last);
      BigEndianSnoc(front, last);
      assert front + [last] == octets;
    }
  }

  /** Closed form: the unsigned value o1·2^24 + o2·2^16 + o3·2^8 + o4, less
      2^32 when the first octet is 128 or more (the last shift moves a one
      into the sign bit). */
  lemma Ip2IntClosedForm(ip: string)
    requires IsDottedQuad(ip)
    ensures var o := OctetsOf(ip);
      Ip2Int(ip) == o[0] * 0x100_0000 + o[1] * 0x1_0000 + o[2] * 0x100 + o[3]
                    - (if o[0] >= 128 then Two32 else 0)
  {
    var o := OctetsOf(ip);
    ShiftFoldIsInt32Wrap(o);
    BigEndianFour(o);
    BigEndianBounds(o);
    BigEndianBounds(o[1..]);
  }

  /** The key is a signed 32-bit number, negative exactly when the first
      octet is 128 or more. */
  lemma Ip2IntRange(ip: string)
    requires IsDottedQuad(ip)
    ensures -Two31 <= Ip2Int(ip) < Two31
    ensures Ip2Int(ip) < 0 <==> OctetsOf(ip)[0] >= 128
  {
    Ip2IntClosedForm(ip);
  }

  /** Two well-formed addresses get the same key exactly when their octets
      are the same. */
  lemma Ip2IntInjective(a: string, b: string)
    requires IsDottedQuad(a) && IsDottedQuad(b)
    ensures Ip2Int(a) == Ip2Int(b) <==> OctetsOf(a) == OctetsOf(b)
  {
    var oa, ob := OctetsOf(a), OctetsOf(b);
    if Ip2Int(a) == Ip2Int(b) {
      Ip2IntRange(a);
      Ip2IntRange(b);
      ShiftFoldIsInt32Wrap(oa);
      ShiftFoldIsInt32Wrap(ob);
      BigEndianBounds(oa);
      BigEndianBounds(ob);
      assert Pow256(4) == Two32;
      ToUint32OfInt32(Ip2Int(a));
      BigEndianInjective(oa, ob);
    }
  }

  /** On addresses written the usual way (no leading zeros), two texts get
      the same key exactly when they are the same text. */
  lemma Ip2IntInjectiveOnText(a: string, b: string)
    requires IsCanonicalQuad(a) && IsCanonicalQuad(b)
    ensures Ip2Int(a) == Ip2Int(b) <==> a == b
  {
    Ip2IntInjective(a, b);
    CanonicalQuadsByOctets(a, b);
  }

  /** `ip2int(ip) >>> 0`: the key read as an unsigned 32-bit number, which
      is how the importer writes keys. */
  function Ip2IntUnsigned(ip: string): int
    requires IsDottedQuad(ip)
  {
    ToUint32(Ip2Int(ip))
  }

  /** The unsigned key is the plain big-endian number of the octets. */
  lemma Ip2IntUnsignedIsBigEndian(ip: string)
    requires IsDottedQuad(ip)
    ensures Ip2IntUnsigned(ip) == BigEndian(OctetsOf(ip))
  {
    var o := OctetsOf(ip);
    ShiftFoldIsInt32Wrap(o);
    BigEndianBounds(o);
    assert Pow256(4) == Two32;
    Ip2IntRange(ip);
    ToUint32OfInt32(Ip2Int(ip));
  }

  // ---------------------------------------------------------------------
  // The decision
  // ---------------------------------------------------------------------

  /** Outcome of `dynamodb.getItem` for the client's key. */
  datatype LookupResult = LookupError | ItemAbsent | ItemPresent

  /** `params.ipr` after `QS.parse(request.querystring)`: missing, one
      string, or the array the parser builds for a repeated key. */
  datatype IprParam = NoIpr | Ipr(value: string) | IprList(values: seq<string>)

  /** Outcome of `ssm.getParameter` for the secret. */
  datatype SecretResult = FetchError | Secret(value: string)

  datatype Verdict = Pass | Restrict

  /** JavaScript truthiness of `params.ipr`: missing and the empty string
      are falsy; any array is truthy. */
  predicate IprGiven(ipr: IprParam) {
    match ipr
    case NoIpr => false
    case Ipr(v) => v != ""
    case IprList(_) => true
  }

  /** `data.Parameter.Value === params.ipr`: strict equality holds only
      between two identical strings, never between a string and an array. */
  predicate TokenMatches(ipr: IprParam, secret: string) {
    ipr == Ipr(secret)
  }

  /** The verdict of `checkRestrictFlag` with the fetch error handled by an
      explicit early return. */
  function RestrictFlagVerdict(ipr: IprParam, secret: SecretResult): Verdict {
    if !IprGiven(ipr) then Restrict
    else match secret
      case FetchError => Restrict
      case Secret(value) => if TokenMatches(ipr, value) then Pass else Restrict
  }

  /** The verdict of `checkIpTable`. */
  function IpTableVerdict(lookup: LookupResult, ipr: IprParam, secret: SecretResult): Verdict {
    match lookup
    case LookupError => Restrict
    case ItemAbsent => Pass
    case ItemPresent => RestrictFlagVerdict(ipr, secret)
  }

  /** Whether `checkIpTable` goes on to call `ssm.getParameter`. */
  predicate SecretFetched(lookup: LookupResult, ipr: IprParam) {
    lookup == ItemPresent && IprGiven(ipr)
  }

  /** The secret-token check is fail-closed: it passes exactly when a
      non-empty single `ipr` equals a secret that was fetched, and a missing
      parameter, a fetch error, a mismatch or a repeated parameter restrict. */
  lemma RestrictFlagFailsClosed(ipr: IprParam, secret: SecretResult)
    ensures RestrictFlagVerdict(ipr, secret) == Pass <==>
      exists token :: token != "" && ipr == Ipr(token) && secret == Secret(token)
    ensures !IprGiven(ipr) ==> RestrictFlagVerdict(ipr, secret) == Restrict
    ensures secret == FetchError ==> RestrictFlagVerdict(ipr, secret) == Restrict
    ensures ipr.IprList? ==> RestrictFlagVerdict(ipr, secret) == Restrict
  {
    // the witness of a Pass is the fetched secret itself
    if RestrictFlagVerdict(ipr, secret) == Pass {
      assert ipr == Ipr(secret.value);
    }
  }

  /** The gate's branches: a lookup error restricts, an absent item passes,
      a present item passes only with the matching token. */
  lemma IpTableBranches(lookup: LookupResult, ipr: IprParam, secret: SecretResult)
    ensures lookup == LookupError ==> IpTableVerdict(lookup, ipr, secret) == Restrict
    ensures lookup == ItemAbsent ==> IpTableVerdict(lookup, ipr, secret) == Pass
    ensures lookup == ItemPresent && !IprGiven(ipr) ==> IpTableVerdict(lookup, ipr, secret) == Restrict
    ensures lookup == ItemPresent && IprGiven(ipr) ==>
      (IpTableVerdict(lookup, ipr, secret) == Pass <==> secret.Secret? && TokenMatches(ipr, secret.value))
  {
  }

  /** Pass happens only through an absent item or a matching token. */
  lemma PassOnlyThroughAbsentItemOrToken(lookup: LookupResult, ipr: IprParam, secret: SecretResult)
    ensures IpTableVerdict(lookup, ipr, secret) == Pass <==>
      lookup == ItemAbsent ||
      (lookup == ItemPresent && exists token :: token != "" && ipr == Ipr(token) && secret == Secret(token))
  {
    RestrictFlagFailsClosed(ipr, secret);
  }

  /** When the secret is not fetched, its value cannot affect the verdict. */
  lemma SecretReadOnlyWhenFetched(lookup: LookupResult, ipr: IprParam, s1: SecretResult, s2: SecretResult)
    requires !SecretFetched(lookup, ipr)
    ensures IpTableVerdict(lookup, ipr, s1) == IpTableVerdict(lookup, ipr, s2)
  {
  }

  // ---------------------------------------------------------------------
  // The request and the methods that rewrite it
  // ---------------------------------------------------------------------

  /** The fields of a CloudFront request that the gate reads or writes. */
  datatype RequestView = RequestView(clientIp: string, uri: string, querystring: string)

  /** What `restrictedResponse` does to a request: only `uri` changes. */
  function Restricted(r: RequestView): RequestView {
    r.(uri := RestrictedUri)
  }

  /** The request handed to the callback for a verdict. */
  function Applied(v: Verdict, r: RequestView): RequestView {
    if v == Pass then r else Restricted(r)
  }

  /** Restricting sets the restricted page, keeps the other fields, and
      restricting again changes nothing. */
  lemma RestrictedIdempotent(r: RequestView)
    ensures Restricted(r).uri == RestrictedUri
    ensures Restricted(r).clientIp == r.clientIp && Restricted(r).querystring == r.querystring
    ensures Restricted(Restricted(r)) == Restricted(r)
  {
  }

  class Request {
    var clientIp: string
    var uri: string
    var querystring: string

    constructor (clientIp: string, uri: string, querystring: string)
      ensures View() == RequestView(clientIp, uri, querystring)
    {
      this.clientIp := clientIp;
      this.uri := uri;
      this.querystring := querystring;
    }

    function View(): RequestView
      reads this
    {
      RequestView(clientIp, uri, querystring)
    }
  }

  /** `restrictedResponse(request, callback)`: rewrites `uri` in place and
      completes with Restrict. */
  method RestrictedResponse(request: Request) returns (verdict: Verdict)
    modifies request
    ensures verdict == Restrict
    ensures request.View() == Restricted(old(request.View()))
  {
    request.uri := RestrictedUri;
    verdict := Restrict;
  }

  /** `checkRestrictFlag(request, callback)`; `fetched` tells whether
      `ssm.getParameter` was called. */
  method CheckRestrictFlag(request: Request, ipr: IprParam, secret: SecretResult)
    returns (verdict: Verdict, fetched: bool)
    modifies request
    ensures verdict == RestrictFlagVerdict(ipr, secret)
    ensures fetched == IprGiven(ipr)
    ensures request.View() == Applied(verdict, old(request.View()))
  {
    if !IprGiven(ipr) {
      verdict := RestrictedResponse(request);
      fetched := false;
      return;
    }
    fetched := true;
    match secret
    case FetchError =>
      verdict := RestrictedResponse(request);
      return;
    case Secret(value) =>
      if !TokenMatches(ipr, value) {
        verdict := RestrictedResponse(request);
      } else {
        verdict := Pass;
      }
  }

  /** `checkIpTable(request, callback)`: exactly one verdict per request,
      applied to the request in place. */
  method CheckIpTable(request: Request, lookup: LookupResult, ipr: IprParam, secret: SecretResult)
    returns (verdict: Verdict, fetched: bool)
    modifies request
    ensures verdict == IpTableVerdict(lookup, ipr, secret)
    ensures fetched == SecretFetched(lookup, ipr)
    ensures request.View() == Applied(verdict, old(request.View()))
  {
    match lookup
    case LookupError =>
      verdict := RestrictedResponse(request);
      fetched := false;
    case ItemAbsent =>
      verdict := Pass;
      fetched := false;
    case ItemPresent =>
      verdict, fetched := CheckRestrictFlag(request, ipr, secret);
  }

  // ---------------------------------------------------------------------
  // checkRestrictFlag as written: no return after the fetch error
  // ---------------------------------------------------------------------

  /** What the caller observes: the callback firing with a verdict, or the
      TypeError from reading `Parameter` of the undefined `data`. Since
      `checkRestrictFlag` is async, the TypeError rejects its promise;
      `checkIpTable` awaits it and the handler discards the result, so it
      ends as an unhandled promise rejection. */
  datatype Event = Callback(verdict: Verdict) | UnhandledRejection

  /** `checkRestrictFlag` exactly as written: after the catch block calls
      `restrictedResponse` control falls through to line 49, where `data`
      is still undefined. */
  function RestrictFlagEventsAsWritten(ipr: IprParam, secret: SecretResult): seq<Event> {
    if !IprGiven(ipr) then [Callback(Restrict)]
    else match secret
      case FetchError => [Callback(Restrict), UnhandledRejection]
      case Secret(value) => if TokenMatches(ipr, value) then [Callback(Pass)] else [Callback(Restrict)]
  }

  /** The code as written reports the same verdict first, but on a fetch
      error it then throws: the callback's completion is followed by an
      unhandled rejection, and only in that case. */
  lemma AsWrittenThrowsAfterFetchError(ipr: IprParam, secret: SecretResult)
    ensures var events := RestrictFlagEventsAsWritten(ipr, secret);
      |events| >= 1 && events[0] == Callback(RestrictFlagVerdict(ipr, secret)) &&
      (UnhandledRejection in events <==> IprGiven(ipr) && secret == FetchError)
  {
  }
}
