/** Reading a URI query string back into its `name=value` parameters: the
    way a payment app takes apart the link the page produces. */
module QueryString {
  import opened JsString

  /** The pieces of `s` between the occurrences of `sep`. */
  function Split(s: string, sep: char): (parts: seq<string>)
    ensures |parts| >= 1
    decreases |s|
  {
    if sep !in s then [s]
    else
      var k := IndexOf(s, sep);
      [s[..k]] + Split(s[k + 1..], sep)
  }

  /** The pieces joined with `sep` between them. */
  function Join(parts: seq<string>, sep: char): string
    requires |parts| >= 1
  {
    if |parts| == 1 then parts[0] else parts[0] + [sep] + Join(parts[1..], sep)
  }

  /** Splitting undoes joining when no piece holds the separator. */
  lemma {:induction false} SplitJoin(parts: seq<string>, sep: char)
    requires |parts| >= 1
    requires forall i :: 0 <= i < |parts| ==> sep !in parts[i]
    ensures Split(Join(parts, sep), sep) == parts
    decreases |parts|
  {
    if |parts| > 1 {
      var s := Join(parts, sep);
      var p := parts[0];
      assert s[|p|] == sep;
      assert s[..|p|] == p;
      assert IndexOf(s, sep) == |p|;
      assert s[|p| + 1..] == Join(parts[1..], sep);
      SplitJoin(parts[1..], sep);
    }
  }

  lemma JoinFive(a: string, b: string, c: string, d: string, e: string, sep: char)
    ensures Join([a, b, c, d, e], sep) == a + [sep] + b + [sep] + c + [sep] + d + [sep] + e
  {
    assert Join([e], sep) == e;
    assert Join([d, e], sep) == d + [sep] + e by {
      assert [d, e][1..] == [e];
    }
    assert Join([c, d, e], sep) == c + [sep] + d + [sep] + e by {
      assert [c, d, e][1..] == [d, e];
    }
    assert Join([b, c, d, e], sep) == b + [sep] + c + [sep] + d + [sep] + e by {
      assert [b, c, d, e][1..] == [c, d, e];
    }
    assert [a, b, c, d, e][1..] == [b, c, d, e];
  }

  type Param = (string, string)

  /** A `name=value` piece, split at its first `=`; a piece without `=` is a
      name with an empty value. */
  function ParseParam(piece: string): Param {
    if '=' in piece then
      var k := IndexOf(piece, '=');
      (piece[..k], piece[k + 1..])
    else (piece, "")
  }

  /** The parameters of a query string, in order. */
  function ParseParams(query: string): seq<Param> {
    var pieces := Split(query, '&');
    seq(|pieces|, i requires 0 <= i < |pieces| => ParseParam(pieces[i]))
  }

  /** A piece `key=value` whose key holds no `=` reads back as that key and
      that value, whatever the value holds. */
  lemma ParseNamedParam(head: string, key: string, value: string)
    requires head == key + "=" && '=' !in key
    ensures ParseParam(head + value) == (key, value)
  {
    var piece := head + value;
    assert piece[|key|] == '=';
    assert piece[..|key|] == key;
    assert IndexOf(piece, '=') == |key|;
    assert piece[|key| + 1..] == value;
  }

  /** Reading a query joined from pieces without `&` gives the parameters
      of the pieces, in order. */
  lemma ParseJoined(pieces: seq<string>, ps: seq<Param>)
    requires |pieces| >= 1 && |ps| == |pieces|
    requires forall i :: 0 <= i < |pieces| ==> '&' !in pieces[i] && ParseParam(pieces[i]) == ps[i]
    ensures ParseParams(Join(pieces, '&')) == ps
  {
    SplitJoin(pieces, '&');
  }
}
