/**
 * The JSON text the service stores for a list of strings (`json.dumps`)
 * and the reading of it back (`json.loads`). Items are written
 * `["a", "b"]`: a double-quoted string per item, the separator `", "`,
 * and the two characters `"` and `\` escaped with a backslash.
 */
module ListCodec {
  import opened Results

  function EscapeChar(c: char): string {
    if c == '"' || c == '\\' then ['\\', c] else [c]
  }

  /** The body of a JSON string literal. */
  function Escape(s: string): string {
    if s == [] then [] else EscapeChar(s[0]) + Escape(s[1..])
  }

  /** Neither a quote nor a backslash: the characters JSON would escape here. */
  predicate Plain(s: string) {
    forall i :: 0 <= i < |s| ==> s[i] != '"' && s[i] != '\\'
  }

  /** Escaping leaves a string alone exactly when it has nothing to escape. */
  lemma {:induction false} EscapeUnchanged(s: string)
    ensures Escape(s) == s <==> Plain(s)
  {
    if s != [] {
      EscapeUnchanged(s[1..]);
      EscapeLength(s[1..]);
      if Plain(s) {
        assert Plain(s[1..]) by {
          forall i | 0 <= i < |s| - 1 ensures s[1..][i] != '"' && s[1..][i] != '\\' {
            assert s[1..][i] == s[i + 1];
          }
        }
        assert Escape(s) == [s[0]] + s[1..];
      }
      if Escape(s) == s {
        assert Escape(s[1..]) == s[1..];
        forall i | 0 <= i < |s| ensures s[i] != '"' && s[i] != '\\' {
          if i > 0 {
            assert s[i] == s[1..][i - 1];
          }
        }
      }
    }
  }

  lemma {:induction false} EscapeLength(s: string)
    ensures |Escape(s)| >= |s|
  {
    if s != [] {
      EscapeLength(s[1..]);
    }
  }

  function Quote(s: string): string {
    "\"" + Escape(s) + "\""
  }

  function JoinItems(xs: seq<string>): string {
    if xs == [] then ""
    else if |xs| == 1 then Quote(xs[0])
    else Quote(xs[0]) + ", " + JoinItems(xs[1..])
  }

  /** `json.dumps(xs)` for a list of strings. */
  function EncodeList(xs: seq<string>): string {
    "[" + JoinItems(xs) + "]"
  }

  /** Two plain items are written verbatim between their quotes. */
  lemma EncodePair(a: string, b: string)
    requires Plain(a) && Plain(b)
    ensures EncodeList([a, b]) == "[\"" + (a + "\", \"" + b) + "\"]"
  {
    EscapeUnchanged(a);
    EscapeUnchanged(b);
    assert [a, b][1..] == [b];
    assert JoinItems([a, b]) == Quote(a) + ", " + Quote(b);
  }

  /**
   * Reads the body of a string literal, up to and including its closing
   * quote; gives the decoded text and what follows the quote.
   */
  function ReadString(s: string): (r: Option<(string, string)>)
    ensures r.Some? ==> |r.value.1| < |s|
  {
    if s == [] then None
    else if s[0] == '"' then Some(([], s[1..]))
    else if s[0] == '\\' then
      if |s| >= 2 && (s[1] == '"' || s[1] == '\\') then
        match ReadString(s[2..])
        case None => None
        case Some(p) => Some(([s[1]] + p.0, p.1))
      else None
    else
      match ReadString(s[1..])
      case None => None
      case Some(p) => Some(([s[0]] + p.0, p.1))
  }

  /** Reads the items of a non-empty list, from the first item's opening quote to the closing bracket. */
  function ReadItems(s: string): Option<seq<string>>
    decreases |s|
  {
    if s == [] || s[0] != '"' then None
    else
      match ReadString(s[1..])
      case None => None
      case Some(p) =>
        if p.1 == "]" then Some([p.0])
        else if |p.1| >= 2 && p.1[..2] == ", " then
          match ReadItems(p.1[2..])
          case None => None
          case Some(rest) => Some([p.0] + rest)
        else None
  }

  /** `json.loads(s)`, for the text `EncodeList` writes; None for any other text. */
  function DecodeList(s: string): Option<seq<string>> {
    if s == "[]" then Some([])
    else if |s| >= 1 && s[0] == '[' then ReadItems(s[1..])
    else None
  }

  lemma {:induction false} ReadEscaped(x: string, rest: string)
    ensures ReadString(Escape(x) + "\"" + rest) == Some((x, rest))
  {
    if x == [] {
      assert Escape(x) + "\"" + rest == "\"" + rest;
    } else {
      var s := Escape(x) + "\"" + rest;
      ReadEscaped(x[1..], rest);
      assert s == EscapeChar(x[0]) + (Escape(x[1..]) + "\"" + rest);
      if x[0] == '"' || x[0] == '\\' {
        assert s[2..] == Escape(x[1..]) + "\"" + rest;
      } else {
        assert s[1..] == Escape(x[1..]) + "\"" + rest;
      }
      assert [x[0]] + x[1..] == x;
    }
  }

  /** The last item of a list body. */
  lemma {:induction false} ReadLastItem(x: string)
    ensures ReadItems(Quote(x) + "]") == Some([x])
  {
    var s := Quote(x) + "]";
    assert s == "\"" + (Escape(x) + "\"" + "]");
    assert s[1..] == Escape(x) + "\"" + "]";
    ReadEscaped(x, "]");
  }

  /** An item followed by the separator and the rest of the list body. */
  lemma {:induction false} ReadNextItem(x: string, rest: string, ys: seq<string>)
    requires ReadItems(rest) == Some(ys)
    ensures ReadItems(Quote(x) + ", " + rest) == Some([x] + ys)
  {
    var s := Quote(x) + ", " + rest;
    var tail := ", " + rest;
    assert s == "\"" + (Escape(x) + "\"" + tail);
    assert s[1..] == Escape(x) + "\"" + tail;
    ReadEscaped(x, tail);
    assert tail[..2] == ", " && tail[2..] == rest;
    assert tail != "]";
  }

  lemma {:induction false} ReadJoined(xs: seq<string>)
    requires xs != []
    ensures ReadItems(JoinItems(xs) + "]") == Some(xs)
  {
    if |xs| == 1 {
      assert JoinItems(xs) == Quote(xs[0]);
      ReadLastItem(xs[0]);
      assert [xs[0]] == xs;
    } else {
      ReadJoined(xs[1..]);
      assert JoinItems(xs) + "]" == Quote(xs[0]) + ", " + (JoinItems(xs[1..]) + "]");
      ReadNextItem(xs[0], JoinItems(xs[1..]) + "]", xs[1..]);
      assert [xs[0]] + xs[1..] == xs;
    }
  }

  /** Storing a list as JSON text and reading it back gives the same list. */
  lemma RoundTrip(xs: seq<string>)
    ensures DecodeList(EncodeList(xs)) == Some(xs)
  {
    if xs != [] {
      var s := EncodeList(xs);
      assert s[1..] == JoinItems(xs) + "]";
      ReadJoined(xs);
      assert s[1] == '"';
      assert s != "[]";
    }
  }
}
