/** `encodeURIComponent` and its inverse `decodeURIComponent`, as ECMA-262
    defines them (the Encode and Decode abstract operations), over strings of
    Unicode scalar values. Escapes are the `%XX` form of section 2.1 of
    RFC 3986, with upper-case hexadecimal digits. */
module UriComponent {
  import opened Wrappers
  import Utf8

  /** The characters `encodeURIComponent` leaves as they are: the ASCII
      letters and digits and `- _ . ! ~ * ' ( )`. */
  predicate IsUnreserved(c: char) {
    ('A' <= c <= 'Z') || ('a' <= c <= 'z') || ('0' <= c <= '9') ||
    c == '-' || c == '_' || c == '.' || c == '!' || c == '~' || c == '*' || c == '\'' || c == '(' || c == ')'
  }

  const HexDigits: string := "0123456789ABCDEF"

  predicate IsUpperHex(c: char) {
    c in HexDigits
  }

  /** The value of a hexadecimal digit of either case, as the decoder reads it. */
  function HexValue(c: char): (r: Option<nat>)
    ensures r.Some? ==> r.value < 16
  {
    if '0' <= c <= '9' then Some(c as int - '0' as int)
    else if 'A' <= c <= 'F' then Some(c as int - 'A' as int + 10)
    else if 'a' <= c <= 'f' then Some(c as int - 'a' as int + 10)
    else None
  }

  /** Each octet as `%` followed by two upper-case hexadecimal digits. */
  function PercentEscape(bs: seq<Utf8.byte>): (t: string)
    ensures |t| == 3 * |bs|
  {
    if bs == [] then []
    else PercentTriple(bs[0]) + PercentEscape(bs[1..])
  }

  /** One code point: itself when unreserved, otherwise its UTF-8 octets
      escaped. */
  function EscapeChar(c: char): string {
    if IsUnreserved(c) then [c] else PercentEscape(Utf8.EncodeChar(c))
  }

  /** `encodeURIComponent(s)`. */
  function EncodeURIComponent(s: string): string {
    if s == [] then [] else EscapeChar(s[0]) + EncodeURIComponent(s[1..])
  }

  /** Reads `n` escapes `%XX` from the front of `t`. */
  function ReadEscapes(t: string, n: nat): (r: Option<seq<Utf8.byte>>)
    ensures r.Some? ==> |r.value| == n && 3 * n <= |t|
    decreases n
  {
    if n == 0 then Some([])
    else if 3 <= |t| && t[0] == '%' && HexValue(t[1]).Some? && HexValue(t[2]).Some? then
      match ReadEscapes(t[3..], n - 1)
      case None => None
      case Some(bs) => Some([(HexValue(t[1]).value * 16 + HexValue(t[2]).value) as Utf8.byte] + bs)
    else None
  }

  function Prepend(c: char, r: Option<string>): Option<string> {
    match r
    case None => None
    case Some(s) => Some([c] + s)
  }

  /** `decodeURIComponent(t)`, with `None` where it throws a URIError. A
      character other than `%` is copied; an escape starts a UTF-8 sequence
      whose length its first octet announces, and the whole sequence must be
      escaped and must decode to one code point. */
  function DecodeURIComponent(t: string): Option<string>
    decreases |t|
  {
    if t == [] then Some([])
    else if t[0] != '%' then Prepend(t[0], DecodeURIComponent(t[1..]))
    else
      match ReadEscapes(t, 1)
      case None => None
      case Some(lead) =>
        var n := Utf8.SequenceLength(lead[0]);
        if n == 0 then None
        else
          match ReadEscapes(t, n)
          case None => None
          case Some(bs) =>
            match Utf8.DecodeSequence(bs)
            case None => None
            case Some(c) => Prepend(c, DecodeURIComponent(t[3 * n..]))
  }

  /** The shape of an encoded component: unreserved characters and `%XX`
      triples with upper-case hexadecimal digits, nothing else. */
  predicate IsEncoded(t: string)
    decreases |t|
  {
    t == [] ||
    (IsUnreserved(t[0]) && IsEncoded(t[1..])) ||
    (3 <= |t| && t[0] == '%' && IsUpperHex(t[1]) && IsUpperHex(t[2]) && IsEncoded(t[3..]))
  }

  lemma {:induction false} PercentEscapeIsEncoded(bs: seq<Utf8.byte>, rest: string)
    requires IsEncoded(rest)
    ensures IsEncoded(PercentEscape(bs) + rest)
    decreases |bs|
  {
    EscapeSplit(bs, rest);
    if bs != [] {
      PercentEscapeIsEncoded(bs[1..], rest);
      EscapeTriple(bs[0], PercentEscape(bs[1..]) + rest);
    }
  }

  lemma EscapeSplit(bs: seq<Utf8.byte>, rest: string)
    ensures bs == [] ==> PercentEscape(bs) + rest == rest
    ensures bs != [] ==> PercentEscape(bs) + rest == PercentTriple(bs[0]) + (PercentEscape(bs[1..]) + rest)
  {
    if bs == [] {
      assert PercentEscape(bs) + rest == rest;
    }
  }

  /** The escape `%XX` of one octet. */
  function PercentTriple(b: Utf8.byte): string {
    ['%', HexDigits[b as int / 16], HexDigits[b as int % 16]]
  }

  lemma EscapeTriple(b: Utf8.byte, rest: string)
    requires IsEncoded(rest)
    ensures IsEncoded(PercentTriple(b) + rest)
  {
    var t := PercentTriple(b) + rest;
    assert t[3..] == rest;
    assert IsUpperHex(t[1]) && IsUpperHex(t[2]);
  }

  /** Every output of the encoder has the encoded shape. */
  lemma {:induction false} EncodeIsEncoded(s: string)
    ensures IsEncoded(EncodeURIComponent(s))
    decreases |s|
  {
    if s != [] {
      EncodeIsEncoded(s[1..]);
      var rest := EncodeURIComponent(s[1..]);
      if IsUnreserved(s[0]) {
        assert ([s[0]] + rest)[1..] == rest;
      } else {
        PercentEscapeIsEncoded(Utf8.EncodeChar(s[0]), rest);
      }
    }
  }

  /** An encoded component holds only unreserved characters and `%`. */
  lemma {:induction false} EncodedChars(t: string)
    requires IsEncoded(t)
    ensures forall i :: 0 <= i < |t| ==> IsUnreserved(t[i]) || t[i] == '%'
    decreases |t|
  {
    if t != [] {
      if IsUnreserved(t[0]) && IsEncoded(t[1..]) {
        EncodedChars(t[1..]);
        assert forall i :: 1 <= i < |t| ==> t[i] == t[1..][i - 1];
      } else {
        EncodedChars(t[3..]);
        assert forall i :: 3 <= i < |t| ==> t[i] == t[3..][i - 3];
      }
    }
  }

  /** So an encoded `pn` or `tn` value can neither end its query parameter
      (`&`), split into a name and a value (`=`), start a fragment (`#`) or a
      query (`?`), nor hold a space. */
  lemma EncodedHasNoDelimiters(s: string)
    ensures forall c :: c in EncodeURIComponent(s) ==> c !in {'&', '=', '#', '?', ' '}
  {
    var t := EncodeURIComponent(s);
    EncodeIsEncoded(s);
    EncodedChars(t);
    forall c | c in t
      ensures c !in {'&', '=', '#', '?', ' '}
    {
      var i :| 0 <= i < |t| && t[i] == c;
      assert IsUnreserved(t[i]) || t[i] == '%';
    }
  }

  /** A string of unreserved characters encodes to itself. */
  lemma {:induction false} EncodeUnreserved(s: string)
    requires forall i :: 0 <= i < |s| ==> IsUnreserved(s[i])
    ensures EncodeURIComponent(s) == s
    decreases |s|
  {
    if s != [] {
      EncodeUnreserved(s[1..]);
    }
  }

  lemma HexRoundTrip(b: Utf8.byte)
    ensures HexValue(HexDigits[b as int / 16]) == Some(b as int / 16)
    ensures HexValue(HexDigits[b as int % 16]) == Some(b as int % 16)
    ensures (b as int / 16) * 16 + b as int % 16 == b as int
  {
  }

  lemma {:induction false} ReadPercentEscape(bs: seq<Utf8.byte>, rest: string, k: nat)
    requires k <= |bs|
    ensures ReadEscapes(PercentEscape(bs) + rest, k) == Some(bs[..k])
    decreases k
  {
    if k > 0 {
      EscapeSplit(bs, rest);
      ReadPercentEscape(bs[1..], rest, k - 1);
      ReadTriple(bs[0], PercentEscape(bs[1..]) + rest, k);
      assert bs[..k] == [bs[0]] + bs[1..][..k - 1];
    }
  }

  /** Reading `k` escapes from an escaped octet followed by `tail` reads
      that octet and then `k - 1` escapes from `tail`. */
  lemma ReadTriple(b: Utf8.byte, tail: string, k: nat)
    requires k > 0 && ReadEscapes(tail, k - 1).Some?
    ensures ReadEscapes(PercentTriple(b) + tail, k) == Some([b] + ReadEscapes(tail, k - 1).value)
  {
    var t := PercentTriple(b) + tail;
    HexRoundTrip(b);
    assert t[3..] == tail;
    assert t[1] == HexDigits[b as int / 16] && t[2] == HexDigits[b as int % 16];
  }

  /** An unreserved character decodes to itself. */
  lemma DecodeUnreserved(c: char, rest: string)
    requires IsUnreserved(c)
    ensures DecodeURIComponent([c] + rest) == Prepend(c, DecodeURIComponent(rest))
  {
    assert ([c] + rest)[1..] == rest;
  }

  /** The escaped UTF-8 octets of a code point decode to that code point. */
  lemma DecodeEscaped(c: char, rest: string)
    requires !IsUnreserved(c)
    ensures DecodeURIComponent(EscapeChar(c) + rest) == Prepend(c, DecodeURIComponent(rest))
  {
    var bs := Utf8.EncodeChar(c);
    var t := PercentEscape(bs) + rest;
    ReadPercentEscape(bs, rest, 1);
    ReadPercentEscape(bs, rest, |bs|);
    assert bs[..|bs|] == bs;
    Utf8.DecodeEncodeChar(c);
    assert t[3 * |bs|..] == rest;
  }

  /** Decoding the encoding of a string gives back the string. */
  lemma {:induction false} DecodeEncode(s: string)
    ensures DecodeURIComponent(EncodeURIComponent(s)) == Some(s)
    decreases |s|
  {
    if s != [] {
      var c := s[0];
      var rest := EncodeURIComponent(s[1..]);
      DecodeEncode(s[1..]);
      if IsUnreserved(c) {
        DecodeUnreserved(c, rest);
      } else {
        DecodeEscaped(c, rest);
      }
      assert [c] + s[1..] == s;
    }
  }
}
