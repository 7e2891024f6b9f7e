/** The Borsh encoding of an NEP-413 message, and a decoder for it. */
module Nep413 {
  import opened Wrappers
  import opened Bytes
  import opened Signing

  type Nonce = n: seq<byte> | |n| == 32 witness seq(32, _ => 0)

  /** Strings are their UTF-8 bytes. */
  datatype Nep413Payload = Nep413Payload(
    message: seq<byte>,
    nonce: Nonce,
    recipient: seq<byte>,
    callbackUrl: Option<seq<byte>>
  )

  /** Borsh refuses strings whose length does not fit a `u32`. */
  predicate Encodable(p: Nep413Payload) {
    && |p.message| < 0x1_0000_0000
    && |p.recipient| < 0x1_0000_0000
    && (p.callbackUrl.Some? ==> |p.callbackUrl.value| < 0x1_0000_0000)
  }

  function EncodeString(s: seq<byte>): seq<byte>
    requires |s| < 0x1_0000_0000
  {
    U32Le(|s|) + s
  }

  function EncodeOption(o: Option<seq<byte>>): seq<byte>
    requires o.Some? ==> |o.value| < 0x1_0000_0000
  {
    match o
    case None => [0]
    case Some(s) => [1] + EncodeString(s)
  }

  /** Fields in declaration order, with nothing between them. */
  function Encode(p: Nep413Payload): seq<byte>
    requires Encodable(p)
  {
    EncodeString(p.message) + (p.nonce + (EncodeString(p.recipient) + EncodeOption(p.callbackUrl)))
  }

  /** `at` holds a string: its length in four bytes, least significant first, and then its bytes. */
  predicate StringAt(bs: seq<byte>, at: nat, s: seq<byte>) {
    && at + 4 + |s| <= |bs|
    && bs[at] as int + 0x100 * bs[at + 1] as int + 0x1_0000 * bs[at + 2] as int + 0x100_0000 * bs[at + 3] as int == |s|
    && bs[at + 4..at + 4 + |s|] == s
  }

  /** A decoder takes what it needs from the front and returns the unread tail. */
  type Decoded<T> = Option<(T, seq<byte>)>

  function DecodeString(bs: seq<byte>): Decoded<seq<byte>> {
    if |bs| < 4 then None
    else
      var n := FromU32Le(bs[..4]);
      if |bs| - 4 < n then None else Some((bs[4..4 + n], bs[4 + n..]))
  }

  function DecodeNonce(bs: seq<byte>): Decoded<Nonce> {
    if |bs| < 32 then None else Some((bs[..32], bs[32..]))
  }

  function DecodeOption(bs: seq<byte>): Decoded<Option<seq<byte>>> {
    if bs == [] then None
    else if bs[0] == 0 then Some((None, bs[1..]))
    else if bs[0] == 1 then
      match DecodeString(bs[1..])
      case None => None
      case Some((s, tail)) => Some((Some(s), tail))
    else None
  }

  function Decode(bs: seq<byte>): Decoded<Nep413Payload> {
    match DecodeString(bs)
    case None => None
    case Some((message, bs1)) =>
      match DecodeNonce(bs1)
      case None => None
      case Some((nonce, bs2)) =>
        match DecodeString(bs2)
        case None => None
        case Some((recipient, bs3)) =>
          match DecodeOption(bs3)
          case None => None
          case Some((url, tail)) => Some((Nep413Payload(message, nonce, recipient, url), tail))
  }

  lemma StringRoundTrip(s: seq<byte>, tail: seq<byte>)
    requires |s| < 0x1_0000_0000
    ensures DecodeString(EncodeString(s) + tail) == Some((s, tail))
  {
    var bs := EncodeString(s) + tail;
    assert bs[..4] == U32Le(|s|);
    U32LeRoundTrip(|s|);
    assert bs[4..4 + |s|] == s && bs[4 + |s|..] == tail;
  }

  lemma SplitInThree(bs: seq<byte>, i: nat, j: nat)
    requires i <= j <= |bs|
    ensures bs[..i] + bs[i..j] + bs[j..] == bs
  {
  }

  lemma StringCanonical(bs: seq<byte>)
    requires DecodeString(bs).Some?
    ensures var (s, tail) := DecodeString(bs).value;
            |s| < 0x1_0000_0000 && EncodeString(s) + tail == bs
  {
    var (s, tail) := DecodeString(bs).value;
    FromU32LeRoundTrip(bs[..4]);
    SplitInThree(bs, 4, 4 + |s|);
  }

  lemma NonceRoundTrip(n: Nonce, tail: seq<byte>)
    ensures DecodeNonce(n + tail) == Some((n, tail))
  {
  }

  lemma OptionRoundTrip(o: Option<seq<byte>>, tail: seq<byte>)
    requires o.Some? ==> |o.value| < 0x1_0000_0000
    ensures DecodeOption(EncodeOption(o) + tail) == Some((o, tail))
  {
    if o.Some? {
      StringRoundTrip(o.value, tail);
      TailOfConcat(EncodeOption(o), tail);
      assert EncodeOption(o)[1..] == EncodeString(o.value);
    }
  }

  lemma OptionCanonical(bs: seq<byte>)
    requires DecodeOption(bs).Some?
    ensures var (o, tail) := DecodeOption(bs).value;
            (o.Some? ==> |o.value| < 0x1_0000_0000) && EncodeOption(o) + tail == bs
  {
    if bs[0] == 1 {
      StringCanonical(bs[1..]);
    }
  }

  lemma StringIsAt(before: seq<byte>, s: seq<byte>, after: seq<byte>)
    requires |s| < 0x1_0000_0000
    ensures StringAt(before + (EncodeString(s) + after), |before|, s)
  {
    var bs, at, n := before + (EncodeString(s) + after), |before|, U32Le(|s|);
    assert bs[at] == n[0] && bs[at + 1] == n[1] && bs[at + 2] == n[2] && bs[at + 3] == n[3];
    U32LeRoundTrip(|s|);
    assert bs[at + 4..at + 4 + |s|] == s;
  }

  lemma UrlIsAt(before: seq<byte>, url: Option<seq<byte>>)
    requires url.Some? ==> |url.value| < 0x1_0000_0000
    ensures var bs, at := before + EncodeOption(url), |before|;
            UrlAt(bs, at, url)
  {
    if url.Some? {
      StringIsAt(before + [1], url.value, []);
      assert EncodeString(url.value) + [] == EncodeString(url.value);
      Assoc(before, [1], EncodeString(url.value));
    }
  }

  /** `at` begins the last field: a tag, then the string if there is one, and then nothing. */
  predicate UrlAt(bs: seq<byte>, at: nat, url: Option<seq<byte>>) {
    at < |bs| && match url
                 case None => bs[at] == 0 && |bs| == at + 1
                 case Some(s) => bs[at] == 1 && StringAt(bs, at + 1, s) && |bs| == at + 5 + |s|
  }

  lemma Regroup(a: seq<byte>, b: seq<byte>, c: seq<byte>, d: seq<byte>)
    ensures a + (b + (c + d)) == (a + b) + (c + d) == ((a + b) + c) + d
  {
  }

  lemma MessageIsAt(p: Nep413Payload)
    requires Encodable(p)
    ensures StringAt(Encode(p), 0, p.message)
  {
    StringIsAt([], p.message, p.nonce + (EncodeString(p.recipient) + EncodeOption(p.callbackUrl)));
    assert [] + Encode(p) == Encode(p);
  }

  lemma RecipientIsAt(p: Nep413Payload)
    requires Encodable(p)
    ensures StringAt(Encode(p), 36 + |p.message|, p.recipient)
  {
    var m, r, u := EncodeString(p.message), EncodeString(p.recipient), EncodeOption(p.callbackUrl);
    Regroup(m, p.nonce, r, u);
    StringIsAt(m + p.nonce, p.recipient, u);
  }

  lemma UrlOfMessageIsAt(p: Nep413Payload)
    requires Encodable(p)
    ensures UrlAt(Encode(p), 40 + |p.message| + |p.recipient|, p.callbackUrl)
  {
    var m, r, u := EncodeString(p.message), EncodeString(p.recipient), EncodeOption(p.callbackUrl);
    Regroup(m, p.nonce, r, u);
    UrlIsAt((m + p.nonce) + r, p.callbackUrl);
  }

  lemma NonceIsAt(p: Nep413Payload)
    requires Encodable(p)
    ensures var at := 4 + |p.message|;
            at + 32 <= |Encode(p)| && Encode(p)[at..at + 32] == p.nonce
  {
    var after := EncodeString(p.recipient) + EncodeOption(p.callbackUrl);
    DropPrefix(EncodeString(p.message), p.nonce + after);
    assert Encode(p)[4 + |p.message|..][..32] == p.nonce;
  }

  /** Where everything is: message, nonce, recipient, and the tag and text of the callback URL, to the last byte. */
  lemma EncodingLayout(p: Nep413Payload)
    requires Encodable(p)
    ensures StringAt(Encode(p), 0, p.message)
    ensures 36 + |p.message| <= |Encode(p)| && Encode(p)[4 + |p.message|..36 + |p.message|] == p.nonce
    ensures StringAt(Encode(p), 36 + |p.message|, p.recipient)
    ensures UrlAt(Encode(p), 40 + |p.message| + |p.recipient|, p.callbackUrl)
  {
    MessageIsAt(p);
    NonceIsAt(p);
    RecipientIsAt(p);
    UrlOfMessageIsAt(p);
  }

  /** Decoding undoes encoding and returns whatever followed it, for every message Borsh accepts. */
  lemma EncodeDecode(p: Nep413Payload, tail: seq<byte>)
    requires Encodable(p)
    ensures Decode(Encode(p) + tail) == Some((p, tail))
  {
    var c := EncodeOption(p.callbackUrl) + tail;
    var b := EncodeString(p.recipient) + c;
    var a := p.nonce + b;
    EncodedLayout(p, tail);
    StringRoundTrip(p.message, a);
    NonceRoundTrip(p.nonce, b);
    StringRoundTrip(p.recipient, c);
    OptionRoundTrip(p.callbackUrl, tail);
  }

  lemma EncodedLayout(p: Nep413Payload, tail: seq<byte>)
    requires Encodable(p)
    ensures Encode(p) + tail
         == EncodeString(p.message) + (p.nonce + (EncodeString(p.recipient) + (EncodeOption(p.callbackUrl) + tail)))
  {
    var m, r, u := EncodeString(p.message), EncodeString(p.recipient), EncodeOption(p.callbackUrl);
    Assoc(m, p.nonce + (r + u), tail);
    Assoc(p.nonce, r + u, tail);
    Assoc(r, u, tail);
  }

  /** Encoding undoes decoding: a message has one encoding only. */
  lemma DecodeEncode(bs: seq<byte>)
    requires Decode(bs).Some?
    ensures var (p, tail) := Decode(bs).value;
            Encodable(p) && Encode(p) + tail == bs
  {
    var (p, tail) := Decode(bs).value;
    var bs1 := DecodeString(bs).value.1;
    var bs2 := DecodeNonce(bs1).value.1;
    var bs3 := DecodeString(bs2).value.1;
    StringCanonical(bs);
    StringCanonical(bs2);
    OptionCanonical(bs3);
    assert p.nonce + bs2 == bs1;
    EncodedLayout(p, tail);
  }

  /** No encoding is the beginning of another message's encoding. */
  lemma EncodingIsPrefixFree(p: Nep413Payload, q: Nep413Payload)
    requires Encodable(p) && Encodable(q) && Encode(p) <= Encode(q)
    ensures p == q
  {
    var tail := Encode(q)[|Encode(p)|..];
    assert Encode(q) == Encode(p) + tail && Encode(q) + [] == Encode(q);
    EncodeDecode(p, tail);
    EncodeDecode(q, []);
  }

  /** Different messages are never sent as the same commands, whatever paths of one depth they are signed with. */
  lemma DistinctMessagesDistinctCommands(path: seq<u32>, p: Nep413Payload, path': seq<u32>, q: Nep413Payload)
    requires Encodable(p) && Encodable(q) && |path| == |path'|
    requires p != q || path != path'
    ensures Commands(path, Encode(p), 0x07) != Commands(path', Encode(q), 0x07)
  {
    if Commands(path, Encode(p), 0x07) == Commands(path', Encode(q), 0x07) {
      assert |Encode(p)| > 0;
      CommandsDetermineRequest(path, Encode(p), 0x07, path', Encode(q), 0x07);
      EncodingIsPrefixFree(p, q);
    }
  }
}
