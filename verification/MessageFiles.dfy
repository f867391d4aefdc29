/**
 The node address book (files 0.0.101 and 0.0.102) and the throttle definitions
 (file 0.0.123). To show a file, the fields of its messages are rewritten in place
 to text; to encode one, the texts are rewritten in place to message fields.

 A message is followed from its wire values through both rewritings and back to
 wire values. JSON carries the rewritten messages unchanged.
 */
module MessageFiles {
  import opened Strings
  import opened Wrappers

  datatype AccountId = AccountId(shard: nat, realm: nat, num: nat)

  /** The value of a message field; Missing is undefined or null. */
  datatype Value =
    | Missing
    | Num(n: int)
    | Long(v: int)
    | Text(s: string)
    | Bytes(bs: seq<nat>)
    | Account(id: AccountId)

  predicate IsTruthy(v: Value) {
    match v
    case Missing => false
    case Num(n) => n != 0
    case Text(s) => s != ""
    case _ => true
  }

  /** v.toString() */
  function Shown(v: Value): string {
    match v
    case Num(n) => ToDecimal(n)
    case Long(n) => ToDecimal(n)
    case Text(s) => s
    case _ => "[object Object]"
  }

  // ----- 64-bit integers -----

  const TWO_TO_64: int := 0x1_0000_0000_0000_0000
  const TWO_TO_63: int := 0x8000_0000_0000_0000

  /** Reduction to a signed 64-bit integer. */
  function ToSigned(n: int): int {
    (n + TWO_TO_63) % TWO_TO_64 - TWO_TO_63
  }

  /** The 64 bits of an integer, read as an unsigned integer. */
  function ToUnsigned(n: int): int {
    n % TWO_TO_64
  }

  predicate IsDecimal(s: string) {
    if s != "" && s[0] == '-' then s[1..] != "" && AllDigits(s[1..]) else s != "" && AllDigits(s)
  }

  /** Long.fromString(s, false). */
  function LongFromString(s: string): int
    requires IsDecimal(s)
  {
    ToSigned(if s[0] == '-' then 0 - ParseDigits(s[1..]) else ParseDigits(s))
  }

  lemma SignAndDigits(n: nat)
    ensures "-" + Digits(n) != "" && ("-" + Digits(n))[0] == '-' && ("-" + Digits(n))[1..] == Digits(n)
    ensures Digits(n)[0] != '-'
  {
    assert IsDigit(Digits(n)[0]);
  }

  lemma LongFromDecimal(n: int)
    ensures IsDecimal(ToDecimal(n)) && LongFromString(ToDecimal(n)) == ToSigned(n)
  {
    var m := if n < 0 then -n else n;
    SignAndDigits(m);
    ParseOfDigits(m);
  }

  lemma SignedKeepsBits(n: int)
    requires 0 <= n < TWO_TO_64
    ensures ToUnsigned(ToSigned(n)) == n
  {
    if n < TWO_TO_63 {
      assert ToSigned(n) == n;
    } else {
      assert n + TWO_TO_63 == TWO_TO_64 + (n - TWO_TO_63);
      assert ToSigned(n) == n - TWO_TO_64;
    }
  }

  /** Printing an unsigned 64-bit value and reading it as a signed one keeps its bits. */
  lemma UnsignedSurvives(n: int)
    requires 0 <= n < TWO_TO_64
    ensures IsDecimal(ToDecimal(n)) && ToUnsigned(LongFromString(ToDecimal(n))) == n
  {
    LongFromDecimal(n);
    SignedKeepsBits(n);
  }

  /**
   Library functions: Long.fromString and AccountId.fromString, where None stands for
   an exception; Number, stored as a byte or as a port; and UTF-8.
   */
  datatype Library = Library(
    longFromString: string -> Option<int>,
    accountFromString: string -> Option<AccountId>,
    byteFromString: string -> nat,
    portFromString: string -> Value,
    encodeUtf8: string -> seq<nat>,
    decodeUtf8: seq<nat> -> string)

  predicate IsNumeral63(s: string) {
    s != "" && AllDigits(s) && ParseDigits(s) < TWO_TO_63
  }

  /** What is known of the library: it reads decimal numerals, and it decodes what it has encoded. */
  ghost predicate IsProper(lib: Library) {
    && (forall s :: IsDecimal(s) ==> lib.longFromString(s) == Some(LongFromString(s)))
    && (forall s :: AllDigits(s) ==> lib.byteFromString(s) == ParseDigits(s) % 256)
    && (forall s ::
          var parts := SplitOn('.', s);
          |parts| == 3 && IsNumeral63(parts[0]) && IsNumeral63(parts[1]) && IsNumeral63(parts[2]) ==>
            lib.accountFromString(s)
            == Some(AccountId(ParseDigits(parts[0]), ParseDigits(parts[1]), ParseDigits(parts[2]))))
    && (forall s :: lib.encodeUtf8(lib.decodeUtf8(lib.encodeUtf8(s))) == lib.encodeUtf8(s))
  }

  // ----- Node address book -----

  datatype ServiceEndpoint = ServiceEndpoint(ipAddressV4: Value, port: Value)

  datatype NodeAddress = NodeAddress(
    nodeId: Value,
    nodeAccountId: Value,
    nodeCertHash: Value,
    stake: Value,
    serviceEndpoint: seq<ServiceEndpoint>)

  function Decimals(bs: seq<nat>): seq<string> {
    seq(|bs|, i requires 0 <= i < |bs| => Digits(bs[i]))
  }

  function PrintEndpoint(e: ServiceEndpoint): ServiceEndpoint {
    if e.ipAddressV4.Bytes? then e.(ipAddressV4 := Text(Join('.', Decimals(e.ipAddressV4.bs)))) else e
  }

  function PrintEndpoints(es: seq<ServiceEndpoint>): seq<ServiceEndpoint> {
    seq(|es|, i requires 0 <= i < |es| => PrintEndpoint(es[i]))
  }

  /** Buffer.from(v).toString('utf-8') */
  function PrintHash(lib: Library, v: Value): Value {
    match v
    case Bytes(bs) => Text(lib.decodeUtf8(bs))
    case Text(s) => Text(lib.decodeUtf8(lib.encodeUtf8(s)))
    case _ => v
  }

  /** AccountId.toString: the three numbers, separated by dots. */
  function AccountText(a: AccountId): string {
    Join('.', [Digits(a.shard), Digits(a.realm), Digits(a.num)])
  }

  function PrintAccount(v: Value): Value {
    if v.Account? then Text(AccountText(v.id)) else v
  }

  /** A Long object is truthy even when its value is 0. */
  function PrintInteger(v: Value): Value {
    if IsTruthy(v) then Text(Shown(v)) else v
  }

  /** Without a certificate hash nothing is rewritten; a decoded message has one, though it may be empty. */
  function PrintAddress(lib: Library, a: NodeAddress): NodeAddress {
    if IsTruthy(a.nodeCertHash) then
      NodeAddress(PrintInteger(a.nodeId), PrintAccount(a.nodeAccountId), PrintHash(lib, a.nodeCertHash),
                  PrintInteger(a.stake), PrintEndpoints(a.serviceEndpoint))
    else a
  }

  method StringifyNodeAddressBook(lib: Library, book: array<NodeAddress>)
    modifies book
    ensures forall i :: 0 <= i < book.Length ==> book[i] == PrintAddress(lib, old(book[i]))
  {
    for k := 0 to book.Length
      invariant forall i :: 0 <= i < k ==> book[i] == PrintAddress(lib, old(book[i]))
      invariant forall i :: k <= i < book.Length ==> book[i] == old(book[i])
    {
      if IsTruthy(book[k].nodeCertHash) {
        var a := book[k];
        var es := PrintEndpointsInPlace(a.serviceEndpoint);
        a := a.(serviceEndpoint := es, nodeCertHash := PrintHash(lib, a.nodeCertHash));
        if a.nodeAccountId.Account? {
          a := a.(nodeAccountId := Text(AccountText(a.nodeAccountId.id)));
        }
        if IsTruthy(a.nodeId) {
          a := a.(nodeId := Text(Shown(a.nodeId)));
        }
        if IsTruthy(a.stake) {
          a := a.(stake := Text(Shown(a.stake)));
        }
        book[k] := a;
      }
    }
  }

  /** The inner loop over the endpoints of one entry. */
  method PrintEndpointsInPlace(endpoints: seq<ServiceEndpoint>) returns (es: seq<ServiceEndpoint>)
    ensures es == PrintEndpoints(endpoints)
  {
    es := endpoints;
    for e := 0 to |es|
      invariant |es| == |endpoints|
      invariant forall i :: 0 <= i < e ==> es[i] == PrintEndpoint(endpoints[i])
      invariant forall i :: e <= i < |es| ==> es[i] == endpoints[i]
    {
      if es[e].ipAddressV4.Bytes? {
        es := es[e := es[e].(ipAddressV4 := Text(Join('.', Decimals(es[e].ipAddressV4.bs))))];
      }
    }
  }

  function BytesOf(lib: Library, parts: seq<string>): (bytes: seq<nat>)
    ensures |bytes| == |parts|
    ensures forall i :: 0 <= i < |parts| ==> bytes[i] == lib.byteFromString(parts[i])
  {
    if parts == [] then []
    else BytesOf(lib, parts[..|parts| - 1]) + [lib.byteFromString(parts[|parts| - 1])]
  }

  /** port ? Number(port) : null */
  function EncodePort(lib: Library, port: Value): Value {
    if !IsTruthy(port) then Missing
    else if port.Num? then port
    else lib.portFromString(Shown(port))
  }

  function EncodeEndpoint(lib: Library, e: ServiceEndpoint): ServiceEndpoint {
    if e.ipAddressV4.Text? then
      ServiceEndpoint(Bytes(BytesOf(lib, SplitOn('.', e.ipAddressV4.s))), EncodePort(lib, e.port))
    else e
  }

  function EncodeEndpoints(lib: Library, es: seq<ServiceEndpoint>): seq<ServiceEndpoint> {
    seq(|es|, i requires 0 <= i < |es| => EncodeEndpoint(lib, es[i]))
  }

  /** Long.fromString(v.toString(), false), unless the value is falsy. */
  function EncodeLong(lib: Library, v: Value): Option<Value> {
    if !IsTruthy(v) then Some(v)
    else
      var n := lib.longFromString(Shown(v));
      if n.Some? then Some(Long(n.value)) else None
  }

  /** The text "0" is taken out. */
  function EncodeNodeId(lib: Library, nodeId: Value): Option<Value> {
    if nodeId == Text("0") then Some(Missing) else EncodeLong(lib, nodeId)
  }

  function EncodeAccount(lib: Library, v: Value): Option<Value> {
    if !IsTruthy(v) then Some(Missing)
    else
      var a := lib.accountFromString(Shown(v));
      if a.Some? then Some(Account(a.value)) else None
  }

  function EncodeHash(lib: Library, v: Value): Value {
    if v.Text? then Bytes(lib.encodeUtf8(v.s)) else v
  }

  /** None when a library function throws. The stake stays as it is. */
  function EncodeAddress(lib: Library, a: NodeAddress): Option<NodeAddress> {
    var nodeId, account := EncodeNodeId(lib, a.nodeId), EncodeAccount(lib, a.nodeAccountId);
    if nodeId.None? || account.None? then None
    else
      Some(NodeAddress(nodeId.value, account.value, EncodeHash(lib, a.nodeCertHash), a.stake,
                       EncodeEndpoints(lib, a.serviceEndpoint)))
  }

  /** Stops at the first entry that cannot be read. */
  method EncodeNodeAddressBook(lib: Library, book: array<NodeAddress>) returns (ok: bool)
    modifies book
    ensures ok <==> forall i :: 0 <= i < book.Length ==> EncodeAddress(lib, old(book[i])).Some?
    ensures ok ==> forall i :: 0 <= i < book.Length ==> EncodeAddress(lib, old(book[i])) == Some(book[i])
  {
    for k := 0 to book.Length
      invariant forall i :: 0 <= i < k ==> EncodeAddress(lib, old(book[i])) == Some(book[i])
      invariant forall i :: k <= i < book.Length ==> book[i] == old(book[i])
    {
      var was := book[k];
      if was.nodeId == Text("0") {
        book[k] := book[k].(nodeId := Missing);
      } else if IsTruthy(was.nodeId) {
        var nodeId := lib.longFromString(Shown(was.nodeId));
        if nodeId.None? {
          assert EncodeAddress(lib, old(book[k])).None?;
          return false;
        }
        book[k] := book[k].(nodeId := Long(nodeId.value));
      }
      var account := EncodeAccount(lib, was.nodeAccountId);
      if account.None? {
        assert EncodeAddress(lib, old(book[k])).None?;
        return false;
      }
      book[k] := book[k].(nodeAccountId := account.value);
      if was.nodeCertHash.Text? {
        book[k] := book[k].(nodeCertHash := Bytes(lib.encodeUtf8(was.nodeCertHash.s)));
      }
      var es := EncodeEndpointsInPlace(lib, was.serviceEndpoint);
      book[k] := book[k].(serviceEndpoint := es);
    }
    ok := true;
  }

  /** The inner loop over the endpoints of one entry. */
  method EncodeEndpointsInPlace(lib: Library, endpoints: seq<ServiceEndpoint>) returns (es: seq<ServiceEndpoint>)
    ensures es == EncodeEndpoints(lib, endpoints)
  {
    es := endpoints;
    for e := 0 to |es|
      invariant |es| == |endpoints|
      invariant forall i :: 0 <= i < e ==> es[i] == EncodeEndpoint(lib, endpoints[i])
      invariant forall i :: e <= i < |es| ==> es[i] == endpoints[i]
    {
      if es[e].ipAddressV4.Text? {
        var bytes := BytesOf(lib, SplitOn('.', es[e].ipAddressV4.s));
        es := es[e := es[e].(ipAddressV4 := Bytes(bytes))];
        es := es[e := es[e].(port := EncodePort(lib, es[e].port))];
      }
    }
  }

  /** Wire values: signed 64-bit integers, the certificate hash, an account, and each endpoint's address and port. */
  datatype Endpoint = Endpoint(ip: seq<nat>, port: int)
  datatype Node = Node(id: int, account: Option<AccountId>, certHash: seq<nat>, stake: int, endpoints: seq<Endpoint>)

  predicate IsSigned(n: int) {
    -TWO_TO_63 <= n < TWO_TO_63
  }

  predicate ValidNode(n: Node) {
    && IsSigned(n.id) && IsSigned(n.stake) && (n.account.Some? ==> ValidAccount(n.account.value))
    && forall i :: 0 <= i < |n.endpoints| ==> IsAddress(n.endpoints[i].ip)
  }

  predicate ValidAccount(a: AccountId) {
    IsSigned(a.shard) && IsSigned(a.realm) && IsSigned(a.num)
  }

  predicate IsAddress(ip: seq<nat>) {
    forall j :: 0 <= j < |ip| ==> ip[j] < 256
  }

  function FromWire(n: Node): NodeAddress {
    NodeAddress(
      Long(n.id), AccountFromWire(n.account), Bytes(n.certHash), Long(n.stake), EndpointsFromWire(n.endpoints))
  }

  function AccountFromWire(account: Option<AccountId>): Value {
    if account.Some? then Account(account.value) else Missing
  }

  function AccountToWire(v: Value): Option<AccountId> {
    if v.Account? then Some(v.id) else None
  }

  function EndpointsFromWire(es: seq<Endpoint>): seq<ServiceEndpoint> {
    seq(|es|, i requires 0 <= i < |es| => ServiceEndpoint(Bytes(es[i].ip), Num(es[i].port)))
  }

  /** Missing fields have their default values on the wire. */
  function EndpointToWire(e: ServiceEndpoint): Endpoint {
    Endpoint(if e.ipAddressV4.Bytes? then e.ipAddressV4.bs else [], if e.port.Num? then e.port.n else 0)
  }

  /** The writer takes an integer also as a decimal text. */
  function IntegerToWire(lib: Library, v: Value): int {
    match v
    case Long(n) => n
    case Num(n) => n
    case Text(s) => var n := lib.longFromString(s); if n.Some? then n.value else 0
    case _ => 0
  }

  function ToWire(lib: Library, a: NodeAddress): Node {
    Node(IntegerToWire(lib, a.nodeId), AccountToWire(a.nodeAccountId),
         if a.nodeCertHash.Bytes? then a.nodeCertHash.bs else [], IntegerToWire(lib, a.stake),
         EndpointsToWire(a.serviceEndpoint))
  }

  function EndpointsToWire(es: seq<ServiceEndpoint>): seq<Endpoint> {
    seq(|es|, i requires 0 <= i < |es| => EndpointToWire(es[i]))
  }

  lemma ByteSurvives(lib: Library, b: nat)
    requires IsProper(lib) && b < 256
    ensures lib.byteFromString(Digits(b)) == b
  {
    ParseOfDigits(b);
  }

  lemma BytesSurvive(lib: Library, ip: seq<nat>)
    requires IsProper(lib) && IsAddress(ip)
    ensures BytesOf(lib, Decimals(ip)) == ip
  {
    forall j | 0 <= j < |ip|
      ensures BytesOf(lib, Decimals(ip))[j] == ip[j]
    {
      ByteSurvives(lib, ip[j]);
    }
  }

  lemma AddressSurvives(lib: Library, ip: seq<nat>)
    requires IsProper(lib) && IsAddress(ip)
    ensures BytesOf(lib, SplitOn('.', Join('.', Decimals(ip)))) == if ip == [] then [0] else ip
  {
    var decimals := Decimals(ip);
    forall i | 0 <= i < |decimals|
      ensures '.' !in decimals[i]
    {
      assert AllDigits(Digits(ip[i]));
    }
    SplitOfJoin('.', decimals);
    if ip == [] {
      assert AllDigits("") && lib.byteFromString("") == 0;
    } else {
      BytesSurvive(lib, ip);
    }
  }

  /** Only an endpoint without address bytes changes: it gets the one-byte address 0. */
  lemma EndpointSurvives(lib: Library, e: Endpoint)
    requires IsProper(lib) && IsAddress(e.ip)
    ensures var printed := PrintEndpoint(ServiceEndpoint(Bytes(e.ip), Num(e.port)));
            EndpointToWire(EncodeEndpoint(lib, printed)) == Endpoint(if e.ip == [] then [0] else e.ip, e.port)
  {
    AddressSurvives(lib, e.ip);
  }

  lemma SignedSurvives(lib: Library, n: int)
    requires IsProper(lib) && IsSigned(n)
    ensures lib.longFromString(ToDecimal(n)) == Some(n)
    ensures ToDecimal(n) != "" && (ToDecimal(n) == "0" <==> n == 0)
  {
    LongFromDecimal(n);
    SignedIsItself(n);
    LongFromDecimal(0);
    SignedIsItself(0);
    assert ToDecimal(0) == "0";
  }

  lemma SignedIsItself(n: int)
    requires IsSigned(n)
    ensures ToSigned(n) == n
  {
  }

  lemma NodeIdSurvives(lib: Library, id: int)
    requires IsProper(lib) && IsSigned(id)
    ensures EncodeNodeId(lib, PrintInteger(Long(id))) == Some(if id == 0 then Missing else Long(id))
  {
    SignedSurvives(lib, id);
  }

  lemma StakeSurvives(lib: Library, stake: int)
    requires IsProper(lib) && IsSigned(stake)
    ensures IntegerToWire(lib, PrintInteger(Long(stake))) == stake
  {
    SignedSurvives(lib, stake);
  }

  lemma DigitsAreClean(n: nat)
    ensures '.' !in Digits(n)
  {
    assert AllDigits(Digits(n));
  }

  lemma AccountSurvives(lib: Library, account: Option<AccountId>)
    requires IsProper(lib) && (account.Some? ==> ValidAccount(account.value))
    ensures EncodeAccount(lib, PrintAccount(AccountFromWire(account))) == Some(AccountFromWire(account))
  {
    if account.Some? {
      var a, text := account.value, AccountText(account.value);
      var parts := [Digits(a.shard), Digits(a.realm), Digits(a.num)];
      DigitsAreClean(a.shard);
      DigitsAreClean(a.realm);
      DigitsAreClean(a.num);
      SplitOfJoin('.', parts);
      ParseOfDigits(a.shard);
      ParseOfDigits(a.realm);
      ParseOfDigits(a.num);
      assert text == parts[0] + ['.'] + Join('.', parts[1..]);
    }
  }

  /** The bytes are the UTF-8 encoding of a text. */
  ghost predicate IsUtf8(lib: Library, bytes: seq<nat>) {
    exists s :: lib.encodeUtf8(s) == bytes
  }

  lemma HashSurvivesIff(lib: Library, hash: seq<nat>)
    requires IsProper(lib)
    ensures EncodeHash(lib, PrintHash(lib, Bytes(hash))) == Bytes(hash) <==> IsUtf8(lib, hash)
  {
  }

  lemma EndpointsSurviveIff(lib: Library, es: seq<Endpoint>)
    requires IsProper(lib) && forall i :: 0 <= i < |es| ==> IsAddress(es[i].ip)
    ensures EndpointsToWire(EncodeEndpoints(lib, PrintEndpoints(EndpointsFromWire(es)))) == es
            <==> forall i :: 0 <= i < |es| ==> es[i].ip != []
  {
    var after := EndpointsToWire(EncodeEndpoints(lib, PrintEndpoints(EndpointsFromWire(es))));
    forall i | 0 <= i < |es|
      ensures after[i] == es[i] <==> es[i].ip != []
    {
      EndpointSurvives(lib, es[i]);
    }
    if forall i :: 0 <= i < |es| ==> es[i].ip != [] {
      assert after == es;
    }
  }

  /**
   Showing an address book entry and encoding it again never fails, and gives the same
   wire values exactly when the certificate hash is the UTF-8 encoding of a text and
   every endpoint has at least one address byte.
   */
  lemma NodeSurvivesIff(lib: Library, n: Node)
    requires IsProper(lib) && ValidNode(n)
    ensures var encoded := EncodeAddress(lib, PrintAddress(lib, FromWire(n)));
            && encoded.Some?
            && (ToWire(lib, encoded.value) == n
                <==> IsUtf8(lib, n.certHash) && forall i :: 0 <= i < |n.endpoints| ==> n.endpoints[i].ip != [])
  {
    NodeIdSurvives(lib, n.id);
    StakeSurvives(lib, n.stake);
    AccountSurvives(lib, n.account);
    HashSurvivesIff(lib, n.certHash);
    EndpointsSurviveIff(lib, n.endpoints);
  }

  // ----- What is shown -----

  /** The decimal numeral of an integer, with a sign if it is negative. */
  predicate IsIntegerText(s: string, n: int) {
    if n < 0 then s != "" && s[0] == '-' && IsNumeralOf(s[1..], -n) else IsNumeralOf(s, n)
  }

  lemma ToDecimalIsIntegerText(n: int)
    ensures IsIntegerText(ToDecimal(n), n)
  {
    DigitsAreNumeral(if n < 0 then -n else n);
    if n < 0 {
      assert ToDecimal(n)[1..] == Digits(-n);
    }
  }

  /** Numerals with a dot between neighbours, in the order of the numbers. */
  ghost predicate IsDotted(s: string, ns: seq<nat>) {
    var parts := SplitOn('.', s);
    |parts| == |ns| && forall i :: 0 <= i < |ns| ==> IsNumeralOf(parts[i], ns[i])
  }

  lemma JoinedDigitsAreDotted(ns: seq<nat>, parts: seq<string>)
    requires ns != [] && |parts| == |ns| && forall i :: 0 <= i < |ns| ==> parts[i] == Digits(ns[i])
    ensures IsDotted(Join('.', parts), ns)
  {
    forall i | 0 <= i < |ns|
      ensures '.' !in parts[i] && IsNumeralOf(parts[i], ns[i])
    {
      DigitsAreNumeral(ns[i]);
    }
    SplitOfJoin('.', parts);
  }

  lemma ShownAccount(account: AccountId)
    ensures IsDotted(AccountText(account), [account.shard, account.realm, account.num])
  {
    JoinedDigitsAreDotted([account.shard, account.realm, account.num],
                          [Digits(account.shard), Digits(account.realm), Digits(account.num)]);
  }

  ghost predicate ShowsEndpoint(e: ServiceEndpoint, wire: Endpoint) {
    && e.port == Num(wire.port)
    && e.ipAddressV4.Text?
    && if wire.ip == [] then e.ipAddressV4.s == "" else IsDotted(e.ipAddressV4.s, wire.ip)
  }

  lemma ShownEndpoint(wire: Endpoint)
    ensures ShowsEndpoint(PrintEndpoint(ServiceEndpoint(Bytes(wire.ip), Num(wire.port))), wire)
  {
    if wire.ip != [] {
      JoinedDigitsAreDotted(wire.ip, Decimals(wire.ip));
    }
  }

  /** How a decoded entry is shown: numbers as decimal numerals without leading zeros, in their places. */
  lemma ShownEntry(lib: Library, n: Node)
    ensures var shown := PrintAddress(lib, FromWire(n));
            && shown.nodeId.Text? && IsIntegerText(shown.nodeId.s, n.id)
            && shown.stake.Text? && IsIntegerText(shown.stake.s, n.stake)
            && shown.nodeCertHash == Text(lib.decodeUtf8(n.certHash))
            && (match n.account
                case Some(a) => shown.nodeAccountId.Text? && IsDotted(shown.nodeAccountId.s, [a.shard, a.realm, a.num])
                case None => shown.nodeAccountId == Missing)
            && |shown.serviceEndpoint| == |n.endpoints|
            && forall i :: 0 <= i < |n.endpoints| ==> ShowsEndpoint(shown.serviceEndpoint[i], n.endpoints[i])
  {
    ToDecimalIsIntegerText(n.id);
    ToDecimalIsIntegerText(n.stake);
    if n.account.Some? {
      ShownAccount(n.account.value);
    }
    forall i | 0 <= i < |n.endpoints|
      ensures ShowsEndpoint(PrintAddress(lib, FromWire(n)).serviceEndpoint[i], n.endpoints[i])
    {
      ShownEndpoint(n.endpoints[i]);
    }
  }

  /** Without a certificate hash an entry is shown as it is. */
  lemma EntryWithoutHash(lib: Library, a: NodeAddress)
    requires a.nodeCertHash in {Missing, Text("")}
    ensures PrintAddress(lib, a) == a
  {
  }

  // ----- What is encoded -----

  /** An edited endpoint; its port is only touched together with a text address. */
  lemma EncodedEndpoint(lib: Library, ip: seq<nat>, port: int)
    requires IsProper(lib) && IsAddress(ip) && ip != []
    ensures EncodeEndpoint(lib, ServiceEndpoint(Text(Join('.', Decimals(ip))), Num(port)))
            == ServiceEndpoint(Bytes(ip), if port == 0 then Missing else Num(port))
    ensures EncodeEndpoint(lib, ServiceEndpoint(Missing, Num(port))) == ServiceEndpoint(Missing, Num(port))
    ensures forall text ::
              EncodeEndpoint(lib, ServiceEndpoint(Text(Join('.', Decimals(ip))), Text(text))).port
              == if text == "" then Missing else lib.portFromString(text)
  {
    AddressSurvives(lib, ip);
  }

  lemma EncodedAccount(lib: Library, account: AccountId)
    requires IsProper(lib) && ValidAccount(account)
    ensures EncodeAccount(lib, Text(AccountText(account))) == Some(Account(account))
  {
    AccountSurvives(lib, Some(account));
  }

  lemma EncodedNodeId(lib: Library, id: int)
    requires IsProper(lib) && IsSigned(id)
    ensures EncodeNodeId(lib, Text(ToDecimal(id))) == Some(if id == 0 then Missing else Long(id))
  {
    NodeIdSurvives(lib, id);
  }

  /** How an edited entry is encoded, field by field, when its texts are numerals. */
  lemma EncodedEntry(lib: Library, a: NodeAddress, id: int, account: AccountId)
    requires IsProper(lib) && IsSigned(id) && ValidAccount(account)
    requires a.nodeId == Text(ToDecimal(id)) && a.nodeAccountId == Text(AccountText(account))
    ensures var encoded := EncodeAddress(lib, a);
            && encoded.Some?
            && encoded.value.nodeId == (if id == 0 then Missing else Long(id))
            && encoded.value.nodeAccountId == Account(account)
            && (a.nodeCertHash.Text? ==> encoded.value.nodeCertHash == Bytes(lib.encodeUtf8(a.nodeCertHash.s)))
            && encoded.value.stake == a.stake
            && |encoded.value.serviceEndpoint| == |a.serviceEndpoint|
            && forall i :: 0 <= i < |a.serviceEndpoint| ==>
                 encoded.value.serviceEndpoint[i] == EncodeEndpoint(lib, a.serviceEndpoint[i])
  {
    EncodedNodeId(lib, id);
    EncodedAccount(lib, account);
  }

  /** Empty and missing fields are left alone, except that an account becomes null. */
  lemma EncodedEmptyFields(lib: Library, a: NodeAddress)
    requires a.nodeId in {Missing, Text(""), Num(0)} && a.nodeAccountId in {Missing, Text("")}
    ensures EncodeAddress(lib, a).Some?
    ensures EncodeAddress(lib, a).value.nodeId == a.nodeId && EncodeAddress(lib, a).value.nodeAccountId == Missing
  {
  }

  // ----- Throttle definitions -----

  /** The generated enumeration, which maps codes to names and names to codes. */
  datatype Functionality = Functionality(names: map<int, string>, codes: map<string, int>)

  predicate IsEnumeration(f: Functionality) {
    && (forall n :: n in f.names ==> f.names[n] in f.codes && f.codes[f.names[n]] == n)
    && "null" !in f.codes
  }

  datatype ThrottleGroup = ThrottleGroup(operations: seq<Value>, milliOpsPerSec: Value)

  datatype ThrottleBucket = ThrottleBucket(name: string, burstPeriodMs: Value, throttleGroups: seq<ThrottleGroup>)

  /** HederaFunctionality[operation]; a missing value is looked up under the name "null". */
  function LookUp(f: Functionality, operation: Value): Value {
    match operation
    case Num(n) => if n in f.names then Text(f.names[n]) else Missing
    case Text(s) => if s in f.codes then Num(f.codes[s]) else Missing
    case _ => if "null" in f.codes then Num(f.codes["null"]) else Missing
  }

  function LookUpAll(f: Functionality, operations: seq<Value>): seq<Value> {
    seq(|operations|, i requires 0 <= i < |operations| => LookUp(f, operations[i]))
  }

  function PrintGroup(f: Functionality, g: ThrottleGroup): ThrottleGroup {
    ThrottleGroup(LookUpAll(f, g.operations), PrintInteger(g.milliOpsPerSec))
  }

  function PrintBucket(f: Functionality, b: ThrottleBucket): ThrottleBucket {
    ThrottleBucket(b.name, PrintInteger(b.burstPeriodMs),
                   seq(|b.throttleGroups|, i requires 0 <= i < |b.throttleGroups| =>
                     PrintGroup(f, b.throttleGroups[i])))
  }

  method StringifyThrottleDefinitions(f: Functionality, buckets: array<ThrottleBucket>)
    modifies buckets
    ensures forall i :: 0 <= i < buckets.Length ==> buckets[i] == PrintBucket(f, old(buckets[i]))
  {
    for k := 0 to buckets.Length
      invariant forall i :: 0 <= i < k ==> buckets[i] == PrintBucket(f, old(buckets[i]))
      invariant forall i :: k <= i < buckets.Length ==> buckets[i] == old(buckets[i])
    {
      var groups := PrintGroupsInPlace(f, buckets[k].throttleGroups);
      buckets[k] := buckets[k].(throttleGroups := groups);
      if IsTruthy(buckets[k].burstPeriodMs) {
        buckets[k] := buckets[k].(burstPeriodMs := Text(Shown(buckets[k].burstPeriodMs)));
      }
    }
  }

  /** The inner loop over the groups of one bucket. */
  method PrintGroupsInPlace(f: Functionality, throttleGroups: seq<ThrottleGroup>) returns (groups: seq<ThrottleGroup>)
    ensures |groups| == |throttleGroups|
    ensures forall i :: 0 <= i < |groups| ==> groups[i] == PrintGroup(f, throttleGroups[i])
  {
    groups := throttleGroups;
    for g := 0 to |groups|
      invariant |groups| == |throttleGroups|
      invariant forall i :: 0 <= i < g ==> groups[i] == PrintGroup(f, throttleGroups[i])
      invariant forall i :: g <= i < |groups| ==> groups[i] == throttleGroups[i]
    {
      groups := groups[g := groups[g].(operations := LookUpAll(f, groups[g].operations))];
      if IsTruthy(groups[g].milliOpsPerSec) {
        groups := groups[g := groups[g].(milliOpsPerSec := Text(Shown(groups[g].milliOpsPerSec)))];
      }
    }
  }

  /** How a decoded bucket is shown: operations by their names, and the rates as decimal numerals. */
  lemma ShownBucket(f: Functionality, b: Bucket)
    ensures var shown := PrintBucket(f, BucketMessage(b));
            && shown.name == b.name
            && shown.burstPeriodMs.Text? && IsIntegerText(shown.burstPeriodMs.s, b.burstPeriodMs)
            && |shown.throttleGroups| == |b.groups|
            && forall i :: 0 <= i < |b.groups| ==>
                 var group, wire := shown.throttleGroups[i], b.groups[i];
                 && group.milliOpsPerSec.Text? && IsIntegerText(group.milliOpsPerSec.s, wire.milliOpsPerSec)
                 && |group.operations| == |wire.operations|
                 && forall j :: 0 <= j < |wire.operations| ==>
                      var operation := wire.operations[j];
                      group.operations[j] == if operation in f.names then Text(f.names[operation]) else Missing
  {
    ToDecimalIsIntegerText(b.burstPeriodMs);
    forall i | 0 <= i < |b.groups|
      ensures IsIntegerText(ToDecimal(b.groups[i].milliOpsPerSec), b.groups[i].milliOpsPerSec)
    {
      ToDecimalIsIntegerText(b.groups[i].milliOpsPerSec);
    }
  }

  /** None when a rate cannot be read. */
  function EncodeGroup(lib: Library, f: Functionality, g: ThrottleGroup): Option<ThrottleGroup> {
    var rate := EncodeLong(lib, g.milliOpsPerSec);
    if rate.None? then None else Some(ThrottleGroup(LookUpAll(f, g.operations), rate.value))
  }

  ghost predicate EncodesGroups(
    lib: Library, f: Functionality, groups: seq<ThrottleGroup>, encoded: seq<ThrottleGroup>)
  {
    && |encoded| == |groups|
    && forall i :: 0 <= i < |groups| ==> EncodeGroup(lib, f, groups[i]) == Some(encoded[i])
  }

  ghost predicate EncodesBucket(lib: Library, f: Functionality, b: ThrottleBucket, encoded: ThrottleBucket) {
    && encoded.name == b.name
    && EncodeLong(lib, b.burstPeriodMs) == Some(encoded.burstPeriodMs)
    && EncodesGroups(lib, f, b.throttleGroups, encoded.throttleGroups)
  }

  predicate CanEncodeBucket(lib: Library, f: Functionality, b: ThrottleBucket) {
    && EncodeLong(lib, b.burstPeriodMs).Some?
    && forall i :: 0 <= i < |b.throttleGroups| ==> EncodeGroup(lib, f, b.throttleGroups[i]).Some?
  }

  /** Stops at the first rate that cannot be read. */
  method EncodeThrottleDefinitions(lib: Library, f: Functionality, buckets: array<ThrottleBucket>) returns (ok: bool)
    modifies buckets
    ensures ok <==> forall i :: 0 <= i < buckets.Length ==> CanEncodeBucket(lib, f, old(buckets[i]))
    ensures ok ==> forall i :: 0 <= i < buckets.Length ==> EncodesBucket(lib, f, old(buckets[i]), buckets[i])
  {
    for k := 0 to buckets.Length
      invariant forall i :: 0 <= i < k ==>
        CanEncodeBucket(lib, f, old(buckets[i])) && EncodesBucket(lib, f, old(buckets[i]), buckets[i])
      invariant forall i :: k <= i < buckets.Length ==> buckets[i] == old(buckets[i])
    {
      var done, groups := EncodeGroupsInPlace(lib, f, buckets[k].throttleGroups);
      var burst := EncodeLong(lib, buckets[k].burstPeriodMs);
      if !done || burst.None? {
        assert !CanEncodeBucket(lib, f, old(buckets[k]));
        return false;
      }
      buckets[k] := buckets[k].(throttleGroups := groups);
      buckets[k] := buckets[k].(burstPeriodMs := burst.value);
    }
    ok := true;
  }

  /** The inner loop over the groups of one bucket. */
  method EncodeGroupsInPlace(lib: Library, f: Functionality, throttleGroups: seq<ThrottleGroup>)
    returns (ok: bool, groups: seq<ThrottleGroup>)
    ensures ok <==> forall i :: 0 <= i < |throttleGroups| ==> EncodeGroup(lib, f, throttleGroups[i]).Some?
    ensures ok ==> EncodesGroups(lib, f, throttleGroups, groups)
  {
    groups := throttleGroups;
    for g := 0 to |groups|
      invariant |groups| == |throttleGroups|
      invariant forall i :: 0 <= i < g ==> EncodeGroup(lib, f, throttleGroups[i]) == Some(groups[i])
      invariant forall i :: g <= i < |groups| ==> groups[i] == throttleGroups[i]
    {
      groups := groups[g := groups[g].(operations := LookUpAll(f, groups[g].operations))];
      if IsTruthy(groups[g].milliOpsPerSec) {
        var rate := lib.longFromString(Shown(groups[g].milliOpsPerSec));
        if rate.None? {
          assert EncodeGroup(lib, f, throttleGroups[g]).None?;
          return false, groups;
        }
        groups := groups[g := groups[g].(milliOpsPerSec := Long(rate.value))];
      }
    }
    ok := true;
  }

  /** Wire values: both rates are unsigned 64-bit integers, operations are enumeration codes. */
  datatype Group = Group(operations: seq<int>, milliOpsPerSec: int)
  datatype Bucket = Bucket(name: string, burstPeriodMs: int, groups: seq<Group>)

  predicate ValidBucket(b: Bucket) {
    && 0 <= b.burstPeriodMs < TWO_TO_64
    && forall i :: 0 <= i < |b.groups| ==> 0 <= b.groups[i].milliOpsPerSec < TWO_TO_64
  }

  predicate KnownOperations(f: Functionality, g: Group) {
    forall j :: 0 <= j < |g.operations| ==> g.operations[j] in f.names
  }

  function GroupMessage(g: Group): ThrottleGroup {
    ThrottleGroup(
      seq(|g.operations|, j requires 0 <= j < |g.operations| => Num(g.operations[j])),
      Long(g.milliOpsPerSec))
  }

  function BucketMessage(b: Bucket): ThrottleBucket {
    ThrottleBucket(b.name, Long(b.burstPeriodMs),
                   seq(|b.groups|, i requires 0 <= i < |b.groups| => GroupMessage(b.groups[i])))
  }

  /** The encoded group carries these wire values. */
  predicate CarriesGroup(m: ThrottleGroup, g: Group) {
    && m.milliOpsPerSec.Long? && ToUnsigned(m.milliOpsPerSec.v) == g.milliOpsPerSec
    && m.operations == GroupMessage(g).operations
  }

  predicate CarriesBucket(m: ThrottleBucket, b: Bucket) {
    && m.name == b.name
    && m.burstPeriodMs.Long? && ToUnsigned(m.burstPeriodMs.v) == b.burstPeriodMs
    && |m.throttleGroups| == |b.groups|
    && forall i :: 0 <= i < |b.groups| ==> CarriesGroup(m.throttleGroups[i], b.groups[i])
  }

  lemma RateSurvives(lib: Library, rate: int)
    requires IsProper(lib) && 0 <= rate < TWO_TO_64
    ensures var encoded := EncodeLong(lib, PrintInteger(Long(rate)));
            encoded.Some? && encoded.value.Long? && ToUnsigned(encoded.value.v) == rate
  {
    UnsignedSurvives(rate);
  }

  lemma OperationsSurviveIff(f: Functionality, g: Group)
    requires IsEnumeration(f)
    ensures LookUpAll(f, LookUpAll(f, GroupMessage(g).operations)) == GroupMessage(g).operations
            <==> KnownOperations(f, g)
  {
    var before := GroupMessage(g).operations;
    var after := LookUpAll(f, LookUpAll(f, before));
    forall j | 0 <= j < |before|
      ensures after[j] == before[j] <==> g.operations[j] in f.names
    {
      assert after[j] == LookUp(f, LookUp(f, Num(g.operations[j])));
    }
    if KnownOperations(f, g) {
      assert after == before;
    }
  }

  lemma GroupSurvivesIff(lib: Library, f: Functionality, g: Group)
    requires IsProper(lib) && IsEnumeration(f) && 0 <= g.milliOpsPerSec < TWO_TO_64
    ensures var encoded := EncodeGroup(lib, f, PrintGroup(f, GroupMessage(g)));
            encoded.Some? && (CarriesGroup(encoded.value, g) <==> KnownOperations(f, g))
  {
    RateSurvives(lib, g.milliOpsPerSec);
    OperationsSurviveIff(f, g);
  }

  /**
   Showing a throttle bucket and encoding it again keeps both rates for every 64-bit
   value, and keeps the operations exactly when the enumeration knows all of them.
   */
  lemma BucketSurvivesIff(lib: Library, f: Functionality, b: Bucket, encoded: ThrottleBucket)
    requires IsProper(lib) && IsEnumeration(f) && ValidBucket(b)
    ensures CanEncodeBucket(lib, f, PrintBucket(f, BucketMessage(b)))
    ensures EncodesBucket(lib, f, PrintBucket(f, BucketMessage(b)), encoded) ==>
              (CarriesBucket(encoded, b) <==> forall i :: 0 <= i < |b.groups| ==> KnownOperations(f, b.groups[i]))
  {
    RateSurvives(lib, b.burstPeriodMs);
    var printed := PrintBucket(f, BucketMessage(b));
    forall i | 0 <= i < |b.groups|
      ensures printed.throttleGroups[i] == PrintGroup(f, GroupMessage(b.groups[i]))
      ensures EncodeGroup(lib, f, printed.throttleGroups[i]).Some?
      ensures EncodesBucket(lib, f, printed, encoded) ==>
                (CarriesGroup(encoded.throttleGroups[i], b.groups[i]) <==> KnownOperations(f, b.groups[i]))
    {
      GroupSurvivesIff(lib, f, b.groups[i]);
    }
  }
}
