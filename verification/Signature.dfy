/**
 The signed header that NCOM sends (src/lib/signature.ts) and the three parsers that
 check it: NCOM's own, the Node connector's and the PHP connector's. The HMAC of
 section 2 of RFC 2104 is any function from secret and message to a lower-case hex string.
 */
module Signature {
  import opened Options
  import opened Numerals

  type Mac = (string, string) -> string

  predicate IsDigestChar(c: char) {
    '0' <= c <= '9' || 'a' <= c <= 'f'
  }

  predicate IsDigest(s: string) {
    |s| > 0 && |s| % 2 == 0 && forall c :: c in s ==> IsDigestChar(c)
  }

  ghost predicate HexDigests(mac: Mac) {
    forall secret, message :: IsDigest(mac(secret, message))
  }

  function SignPayload(mac: Mac, secret: string, timestamp: nat, body: string): string {
    mac(secret, SignedMessage(timestamp, body))
  }

  function SignedMessage(timestamp: nat, body: string): string {
    Decimal(timestamp) + "." + body
  }

  function SignatureHeader(mac: Mac, secret: string, timestamp: nat, body: string): string {
    HeaderOf(Decimal(timestamp), SignPayload(mac, secret, timestamp, body))
  }

  function HeaderOf(t: string, v1: string): string {
    "t=" + t + ",v1=" + v1
  }

  // ---- the JavaScript parser ---------------------------------------------

  /** piece.trim().split('='), the key and the rest joined again. */
  function JsEntry(piece: string): (string, string) {
    var bits := Split(Trim(piece), '=');
    (bits[0], Join(bits[1..], '='))
  }

  /** Object.fromEntries: a later piece with the same key wins. */
  function JsParts(pieces: seq<string>): map<string, string> {
    if pieces == [] then map[] else
      var entry := JsEntry(pieces[|pieces| - 1]);
      JsParts(pieces[..|pieces| - 1])[entry.0 := entry.1]
  }

  function Get(parts: map<string, string>, key: string): string {
    if key in parts then parts[key] else ""
  }

  /** The timestamp, if it is written in digits. */
  function Timestamp(s: string): Option<nat> {
    if s != "" && AllDigits(s) then Some(Value(s)) else None
  }

  predicate Within(x: int, y: int, bound: int) {
    -bound <= x - y <= bound
  }

  /** Buffer.from(s, 'hex'): bytes up to the first pair that is not hex. */
  function HexBytes(s: string): seq<nat> {
    if |s| < 2 || !IsHex(s[0]) || !IsHex(s[1]) then []
    else [16 * HexDigit(s[0]) + HexDigit(s[1])] + HexBytes(s[2..])
  }

  /** Decoding goes pair by pair, and ends where no pair of hex digits is left. */
  lemma {:induction false} HexBytesMean(s: string, k: nat)
    requires k <= |HexBytes(s)|
    ensures k < |HexBytes(s)| ==>
      && 2 * k + 1 < |s| && IsHex(s[2 * k]) && IsHex(s[2 * k + 1])
      && HexBytes(s)[k] == 16 * HexDigit(s[2 * k]) + HexDigit(s[2 * k + 1])
    ensures k == |HexBytes(s)| ==> 2 * k + 1 >= |s| || !IsHex(s[2 * k]) || !IsHex(s[2 * k + 1])
    decreases |s|
  {
    hide HexDigit, IsHex;
    if k > 0 {
      HexBytesMean(s[2..], k - 1);
    }
  }

  /** NCOM's own check, at Date.now() == nowMs. */
  predicate VerifySignature(mac: Mac, secret: string, header: string, body: string, nowMs: int, tolerance: nat) {
    var parts := JsParts(Split(header, ','));
    var timestamp := Timestamp(Get(parts, "t"));
    && timestamp.Some? && Get(parts, "v1") != ""
    && Within(nowMs, 1000 * timestamp.value, 1000 * tolerance)
    && HexBytes(SignPayload(mac, secret, timestamp.value, body)) == HexBytes(Get(parts, "v1"))
  }

  /** The Node connector's check. */
  predicate NodeVerify(mac: Mac, keyId: string, secret: string, key: string, header: string, body: string, nowMs: int) {
    var parts := JsParts(Split(header, ','));
    var timestamp := Timestamp(Get(parts, "t"));
    && key == keyId
    && timestamp.Some?
    && Within(nowMs, 1000 * timestamp.value, 300 * 1000)
    && SignPayload(mac, secret, timestamp.value, body) == Get(parts, "v1")
  }

  // ---- the PHP parser ----------------------------------------------------

  predicate IsPhpSpace(c: char) {
    c == ' ' || c == '\t' || c == '\n' || c == '\r' || c == '\0' || c == '\U{0B}'
  }

  /** explode('=', trim(piece), 2); pieces without the sign are skipped. */
  function PhpParts(pieces: seq<string>): map<string, string> {
    if pieces == [] then map[] else
      var rest := PhpParts(pieces[..|pieces| - 1]);
      match FirstSplit(TrimBy(pieces[|pieces| - 1], IsPhpSpace), '=')
      case None => rest
      case Some((key, value)) => rest[key := value]
  }

  /** The loop of verify_signature over the pieces. */
  method PhpParse(pieces: seq<string>) returns (parts: map<string, string>)
    ensures parts == PhpParts(pieces)
  {
    parts := map[];
    for i := 0 to |pieces|
      invariant parts == PhpParts(pieces[..i])
    {
      assert pieces[..i + 1][..i] == pieces[..i];
      var bits := FirstSplit(TrimBy(pieces[i], IsPhpSpace), '=');
      if bits.Some? {
        parts := parts[bits.value.0 := bits.value.1];
      }
    }
    assert pieces[..|pieces|] == pieces;
  }

  /** The PHP connector's check: time() has whole seconds, and an unreadable timestamp is zero. */
  predicate PhpVerify(mac: Mac, keyId: string, secret: string, key: string, header: string, body: string, nowMs: int) {
    var parts := PhpParts(Split(header, ','));
    var timestamp := Timestamp(Get(parts, "t")).GetOr(0);
    && key == keyId
    && timestamp != 0
    && Within(nowMs / 1000, timestamp, 300)
    && SignPayload(mac, secret, timestamp, body) == Get(parts, "v1")
  }

  // ---- the two parsers side by side --------------------------------------

  /** Joining the rest again, the JavaScript parsers divide a piece at its first sign, as PHP does. */
  lemma {:induction false} EntryAtFirstSign(piece: string)
    ensures match FirstSplit(Trim(piece), '=')
      case None => JsEntry(piece) == (Trim(piece), "")
      case Some(entry) => JsEntry(piece) == entry
  {
    var bits := Split(Trim(piece), '=');
    match FirstSplit(Trim(piece), '=')
    case None => assert bits[1..] == [];
    case Some((key, value)) =>
      JoinSplit(value, '=');
      assert bits[1..] == Split(value, '=');
  }

  /**
   Whatever a header holds, the parsers read the same parts if every piece has a sign and no exotic space around it.
   */
  lemma {:induction false} ParsersAgree(pieces: seq<string>)
    requires forall piece :: piece in pieces ==> '=' in Trim(piece) && Trim(piece) == TrimBy(piece, IsPhpSpace)
    ensures JsParts(pieces) == PhpParts(pieces)
  {
    hide Trim, TrimBy, JsEntry, FirstSplit;
    if pieces != [] {
      ParsersAgree(pieces[..|pieces| - 1]);
      EntryAtFirstSign(pieces[|pieces| - 1]);
    }
  }

  /** Within ASCII the two trims differ in form feed, which only JavaScript takes off, and NUL, which only PHP does. */
  lemma TrimsDiffer(c: char)
    ensures IsSpace(c) && IsPhpSpace(c) <==> c == ' ' || '\t' <= c <= '\U{0B}' || c == '\r'
    ensures IsPhpSpace(c) && !IsSpace(c) <==> c == '\0'
    ensures c as int < 128 ==> (IsSpace(c) && !IsPhpSpace(c) <==> c == '\U{0C}')
  {
  }

  /** A piece without a sign leaves its text as a key with an empty value in JavaScript, and is skipped in PHP. */
  lemma {:induction false} SignlessPiece(pieces: seq<string>, last: string)
    requires '=' !in last
    ensures JsParts(pieces + [last]) == JsParts(pieces)[Trim(last) := ""]
    ensures PhpParts(pieces + [last]) == PhpParts(pieces)
  {
    assert (pieces + [last])[..|pieces|] == pieces;
    TrimmedChars(last, IsSpace);
    TrimmedChars(last, IsPhpSpace);
    EntryAtFirstSign(last);
  }

  lemma {:induction false} TrimmedChars(s: string, space: char -> bool)
    ensures forall c :: c in TrimBy(s, space) ==> c in s
    decreases |s|
  {
    if s != "" {
      TrimmedChars(s[1..], space);
      TrimmedChars(s[..|s| - 1], space);
    }
  }

  // ---- what any accepted header carries ------------------------------------

  /** A piece of the header, trimmed, is the key, a sign and the value. */
  ghost predicate Carries(header: string, key: string, value: string, space: char -> bool) {
    exists piece :: piece in Split(header, ',') && TrimBy(piece, space) == key + "=" + value
  }

  /** The header names a timestamp in digits, and carries a digest with it. */
  ghost predicate CarriesBoth(header: string, timestamp: nat, digest: string, space: char -> bool) {
    && digest != "" && Carries(header, "v1", digest, space)
    && exists t :: t != "" && AllDigits(t) && Value(t) == timestamp && Carries(header, "t", t, space)
  }

  /** A part that is not empty stands in one of the pieces. */
  lemma {:induction false} JsPartIsPiece(pieces: seq<string>, key: string)
    requires Get(JsParts(pieces), key) != ""
    ensures exists piece :: piece in pieces && Trim(piece) == key + "=" + Get(JsParts(pieces), key)
  {
    hide Trim, JsEntry;
    var n := |pieces| - 1;
    var last := pieces[n];
    EntryAtFirstSign(last);
    if JsEntry(last).0 == key {
      assert last in pieces && Trim(last) == key + "=" + Get(JsParts(pieces), key);
    } else {
      JsPartIsPiece(pieces[..n], key);
    }
  }

  lemma {:induction false} PhpPartIsPiece(pieces: seq<string>, key: string)
    requires Get(PhpParts(pieces), key) != ""
    ensures exists piece :: piece in pieces && TrimBy(piece, IsPhpSpace) == key + "=" + Get(PhpParts(pieces), key)
  {
    hide TrimBy;
    var n := |pieces| - 1;
    var last := pieces[n];
    var entry := FirstSplit(TrimBy(last, IsPhpSpace), '=');
    if entry.Some? && entry.value.0 == key {
      assert last in pieces && TrimBy(last, IsPhpSpace) == key + "=" + Get(PhpParts(pieces), key);
    } else {
      PhpPartIsPiece(pieces[..n], key);
    }
  }

  /**
   Whatever the header: NCOM accepts it only if it carries a timestamp within the tolerance and a value that
   decodes to the digest of that timestamp and the body.
   */
  lemma {:induction false} AcceptedByNcom(mac: Mac, secret: string, header: string, body: string, nowMs: int,
                                          tolerance: nat) returns (timestamp: nat, digest: string)
    requires VerifySignature(mac, secret, header, body, nowMs, tolerance)
    ensures CarriesBoth(header, timestamp, digest, IsSpace)
    ensures 1000 * timestamp - 1000 * tolerance <= nowMs <= 1000 * timestamp + 1000 * tolerance
    ensures HexBytes(digest) == HexBytes(mac(secret, Decimal(timestamp) + "." + body))
  {
    hide JsParts, Split;
    var pieces := Split(header, ',');
    timestamp, digest := Timestamp(Get(JsParts(pieces), "t")).value, Get(JsParts(pieces), "v1");
    JsPartIsPiece(pieces, "t");
    JsPartIsPiece(pieces, "v1");
  }

  /** Node accepts it only from the shop's own key, with a timestamp within 300 seconds and the very digest. */
  lemma {:induction false} AcceptedByNode(mac: Mac, keyId: string, secret: string, key: string, header: string,
                                          body: string, nowMs: int) returns (timestamp: nat, digest: string)
    requires HexDigests(mac) && NodeVerify(mac, keyId, secret, key, header, body, nowMs)
    ensures key == keyId && CarriesBoth(header, timestamp, digest, IsSpace)
    ensures 1000 * timestamp - 300000 <= nowMs <= 1000 * timestamp + 300000
    ensures digest == mac(secret, Decimal(timestamp) + "." + body)
  {
    hide JsParts, Split;
    var pieces := Split(header, ',');
    timestamp, digest := Timestamp(Get(JsParts(pieces), "t")).value, Get(JsParts(pieces), "v1");
    assert IsDigest(mac(secret, SignedMessage(timestamp, body)));
    JsPartIsPiece(pieces, "t");
    JsPartIsPiece(pieces, "v1");
  }

  /** PHP too, except that it reads the clock in whole seconds, and that a timestamp of zero is none. */
  lemma {:induction false} AcceptedByPhp(mac: Mac, keyId: string, secret: string, key: string, header: string,
                                         body: string, nowMs: int) returns (timestamp: nat, digest: string)
    requires HexDigests(mac) && PhpVerify(mac, keyId, secret, key, header, body, nowMs)
    ensures key == keyId && timestamp > 0 && CarriesBoth(header, timestamp, digest, IsPhpSpace)
    ensures 1000 * timestamp - 300000 <= nowMs < 1000 * timestamp + 301000
    ensures digest == mac(secret, Decimal(timestamp) + "." + body)
  {
    hide PhpParts, Split;
    var pieces := Split(header, ',');
    timestamp, digest := Timestamp(Get(PhpParts(pieces), "t")).value, Get(PhpParts(pieces), "v1");
    assert IsDigest(mac(secret, SignedMessage(timestamp, body)));
    PhpPartIsPiece(pieces, "t");
    PhpPartIsPiece(pieces, "v1");
  }

  /** A header without a digest is accepted by none of the three. */
  lemma {:induction false} NoDigestRefused(mac: Mac, keyId: string, secret: string, key: string, header: string,
                                           body: string, nowMs: int, tolerance: nat)
    requires HexDigests(mac)
    requires forall digest :: !Carries(header, "v1", digest, IsSpace) && !Carries(header, "v1", digest, IsPhpSpace)
    ensures !VerifySignature(mac, secret, header, body, nowMs, tolerance)
    ensures !NodeVerify(mac, keyId, secret, key, header, body, nowMs)
    ensures !PhpVerify(mac, keyId, secret, key, header, body, nowMs)
  {
    hide VerifySignature, NodeVerify, PhpVerify, Carries;
    if VerifySignature(mac, secret, header, body, nowMs, tolerance) {
      var timestamp, digest := AcceptedByNcom(mac, secret, header, body, nowMs, tolerance);
    }
    if NodeVerify(mac, keyId, secret, key, header, body, nowMs) {
      var timestamp, digest := AcceptedByNode(mac, keyId, secret, key, header, body, nowMs);
    }
    if PhpVerify(mac, keyId, secret, key, header, body, nowMs) {
      var timestamp, digest := AcceptedByPhp(mac, keyId, secret, key, header, body, nowMs);
    }
  }

  // ---- a printed header is read back -------------------------------------

  ghost predicate Clean(s: string) {
    forall c :: c in s ==> c != ',' && c != '=' && !IsSpace(c) && !IsPhpSpace(c)
  }

  lemma {:induction false} PieceReadsBack(key: string, value: string)
    requires Clean(key) && Clean(value) && key != ""
    ensures JsEntry(key + "=" + value) == (key, value)
    ensures FirstSplit(TrimBy(key + "=" + value, IsPhpSpace), '=') == Some((key, value))
  {
    var piece := key + "=" + value;
    assert piece == key + ['='] + value;
    assert piece[0] in key && (value == "" || piece[|piece| - 1] in value);
    FirstSplitAt(key, '=', value);
    EntryAtFirstSign(piece);
  }

  lemma {:induction false} PartsReadBack(t: string, v: string)
    requires Clean(t) && Clean(v)
    ensures JsParts(Split(HeaderOf(t, v), ',')) == map["t" := t, "v1" := v]
    ensures PhpParts(Split(HeaderOf(t, v), ',')) == map["t" := t, "v1" := v]
  {
    var first, second := "t" + "=" + t, "v1" + "=" + v;
    Grouped(t, v);
    FirstSplitAt(first, ',', second);
    SplitNone(second, ',');
    var pieces := Split(HeaderOf(t, v), ',');
    assert pieces == [first, second];
    hide JsParts, PhpParts, JsEntry, TrimBy, Split;
    PieceReadsBack("t", t);
    PieceReadsBack("v1", v);
    LastPiece([], first, "t", t);
    LastPiece([first], second, "v1", v);
    assert [] + [first] == [first] && [first] + [second] == pieces;
  }

  lemma {:induction false} Grouped(t: string, v: string)
    ensures HeaderOf(t, v) == ("t" + "=" + t) + [','] + ("v1" + "=" + v)
  {
    assert "t=" == "t" + "=" && ",v1=" == [','] + ("v1" + "=");
  }

  lemma {:induction false} LastPiece(pieces: seq<string>, last: string, key: string, value: string)
    requires JsEntry(last) == (key, value) && FirstSplit(TrimBy(last, IsPhpSpace), '=') == Some((key, value))
    ensures JsParts(pieces + [last]) == JsParts(pieces)[key := value]
    ensures PhpParts(pieces + [last]) == PhpParts(pieces)[key := value]
  {
    assert (pieces + [last])[..|pieces|] == pieces;
  }

  lemma {:induction false} DigitsAreClean(s: string)
    requires forall c :: c in s ==> IsDigestChar(c)
    ensures Clean(s)
  {
  }

  lemma {:induction false} HeaderReadsBack(mac: Mac, secret: string, timestamp: nat, body: string)
    requires HexDigests(mac)
    ensures var parts := map["t" := Decimal(timestamp), "v1" := SignPayload(mac, secret, timestamp, body)];
      var pieces := Split(SignatureHeader(mac, secret, timestamp, body), ',');
      && JsParts(pieces) == parts && PhpParts(pieces) == parts
      && Timestamp(parts["t"]) == Some(timestamp) && parts["v1"] != ""
  {
    hide JsParts, PhpParts, Split, SignedMessage, HeaderOf, Clean;
    var v1 := SignPayload(mac, secret, timestamp, body);
    DecimalReadsBack(timestamp);
    assert IsDigest(v1) by { assert IsDigest(mac(secret, SignedMessage(timestamp, body))); }
    DigitsAreClean(Decimal(timestamp));
    DigitsAreClean(v1);
    PartsReadBack(Decimal(timestamp), SignPayload(mac, secret, timestamp, body));
  }

  /** The signed message binds both: no other timestamp or body has the same one. */
  lemma {:induction false} MessageInjective(timestamp: nat, body: string, timestamp': nat, body': string)
    requires SignedMessage(timestamp, body) == SignedMessage(timestamp', body')
    ensures timestamp == timestamp' && body == body'
  {
    DecimalReadsBack(timestamp);
    DecimalReadsBack(timestamp');
    FirstSplitAt(Decimal(timestamp), '.', body);
    FirstSplitAt(Decimal(timestamp'), '.', body');
  }

  lemma {:induction false} HexBytesInjective(a: string, b: string)
    requires IsDigest(a) || a == ""
    requires IsDigest(b) || b == ""
    requires HexBytes(a) == HexBytes(b)
    ensures a == b
    decreases |a|
  {
    assert a != "" ==> IsDigestChar(a[0]) && IsDigestChar(a[1]);
    assert b != "" ==> IsDigestChar(b[0]) && IsDigestChar(b[1]);
    if a != "" && b != "" {
      assert HexBytes(a)[0] == HexBytes(b)[0];
      assert HexBytes(a)[1..] == HexBytes(a[2..]) && HexBytes(b)[1..] == HexBytes(b[2..]);
      HexBytesInjective(a[2..], b[2..]);
      assert a == [a[0], a[1]] + a[2..] && b == [b[0], b[1]] + b[2..];
    }
  }

  /**
   A header signed for one secret and body is accepted for another secret and body exactly when the
   digests agree and the clock is close enough: within 300 seconds to the millisecond for NCOM and
   Node, to the whole second for PHP.
   */
  lemma {:induction false} SignedHeaderAccepted(mac: Mac, keyId: string, key: string, secret: string, body: string,
                                                timestamp: nat, secret': string, body': string, nowMs: int)
    requires HexDigests(mac)
    ensures var header := SignatureHeader(mac, secret, timestamp, body);
      var same := SignPayload(mac, secret', timestamp, body') == SignPayload(mac, secret, timestamp, body);
      && (VerifySignature(mac, secret', header, body', nowMs, 300) <==> same && Within(nowMs, 1000 * timestamp, 300000))
      && (NodeVerify(mac, keyId, secret', key, header, body', nowMs) <==>
            same && key == keyId && Within(nowMs, 1000 * timestamp, 300000))
      && (PhpVerify(mac, keyId, secret', key, header, body', nowMs) <==>
            same && key == keyId && timestamp > 0 && Within(nowMs / 1000, timestamp, 300))
  {
    hide JsParts, PhpParts, Split, SignatureHeader;
    HeaderReadsBack(mac, secret, timestamp, body);
    var expected, provided := SignPayload(mac, secret', timestamp, body'), SignPayload(mac, secret, timestamp, body);
    assert IsDigest(expected) && IsDigest(provided);
    if HexBytes(expected) == HexBytes(provided) {
      HexBytesInjective(expected, provided);
    }
  }

  /**
   With the right key, secret and body the three checks agree on every clock except in the last second
   after the limit, where only PHP still accepts because it reads the time in whole seconds.
   */
  lemma {:induction false} ConnectorsAgree(mac: Mac, keyId: string, secret: string, body: string, timestamp: nat,
                                           nowMs: int)
    requires HexDigests(mac) && timestamp > 0
    ensures var header := SignatureHeader(mac, secret, timestamp, body);
      var ncom := VerifySignature(mac, secret, header, body, nowMs, 300);
      && NodeVerify(mac, keyId, secret, keyId, header, body, nowMs) == ncom
      && (PhpVerify(mac, keyId, secret, keyId, header, body, nowMs) != ncom
        <==> 300000 < nowMs - 1000 * timestamp < 301000)
      && (ncom ==> PhpVerify(mac, keyId, secret, keyId, header, body, nowMs))
  {
    SignedHeaderAccepted(mac, keyId, keyId, secret, body, timestamp, secret, body, nowMs);
  }

  /** A header signed at second 1 and checked 300.5 seconds later is stale for NCOM and Node, but not for PHP. */
  lemma {:induction false} LastSecond(mac: Mac, keyId: string, secret: string, body: string)
    requires HexDigests(mac)
    ensures var header := SignatureHeader(mac, secret, 1, body);
      && !VerifySignature(mac, secret, header, body, 301500, 300)
      && !NodeVerify(mac, keyId, secret, keyId, header, body, 301500)
      && PhpVerify(mac, keyId, secret, keyId, header, body, 301500)
  {
    SignedHeaderAccepted(mac, keyId, keyId, secret, body, 1, secret, body, 301500);
  }
}
