/**
 * `JSON.stringify` of an array of strings, as the blog form sends its tags,
 * and a reader for JSON string arrays that undoes it.
 */
module Json {
  import opened Js
  import Text

  const HexDigits := "0123456789abcdef"

  /** How `JSON.stringify` writes one character inside a string literal:
      the two-character escapes, `\u00xx` (lower-case hex) for the other
      control characters, and every other character as itself. Unpaired
      surrogates, which it also escapes, are not characters here. */
  function EscapeChar(c: char): (r: string)
    ensures |r| >= 1
  {
    if c == '"' then "\\\""
    else if c == '\\' then "\\\\"
    else if c == '\U{0008}' then "\\b"
    else if c == '\t' then "\\t"
    else if c == '\n' then "\\n"
    else if c == '\U{000C}' then "\\f"
    else if c == '\r' then "\\r"
    else if c < ' ' then "\\u00" + [HexDigits[c as int / 16], HexDigits[c as int % 16]]
    else [c]
  }

  function Escape(s: string): string {
    if s == [] then [] else EscapeChar(s[0]) + Escape(s[1..])
  }

  /** A JSON string literal. */
  function Quote(s: string): string {
    "\"" + Escape(s) + "\""
  }

  function QuoteAll(xs: seq<string>): (r: seq<string>)
    ensures |r| == |xs|
  {
    if xs == [] then [] else [Quote(xs[0])] + QuoteAll(xs[1..])
  }

  /** `JSON.stringify(xs)` for an array of strings: `[` + the quoted elements
      joined by `,` + `]`. The text is bracketed, is `[]` only for the empty
      array, and holds no raw control character (each one is escaped). */
  function StringifyStrings(xs: seq<string>): (s: string)
    ensures |s| >= 2 && s[0] == '[' && s[|s| - 1] == ']'
    ensures s == "[]" <==> xs == []
    ensures NoControl(s)
  {
    StringifyShape(xs);
    "[" + Text.Join(QuoteAll(xs), ",") + "]"
  }

  lemma StringifyShape(xs: seq<string>)
    ensures var s := "[" + Text.Join(QuoteAll(xs), ",") + "]";
            (s == "[]" <==> xs == []) && NoControl(s)
  {
    var q := QuoteAll(xs);
    QuoteAllNoControl(xs);
    JoinNoControl(q);
    NoControlAppend("[", Text.Join(q, ","));
    NoControlAppend("[" + Text.Join(q, ","), "]");
    if xs != [] {
      JoinLength(q);
    }
  }

  /** No character below the space. */
  predicate NoControl(s: string) {
    forall i :: 0 <= i < |s| ==> ' ' <= s[i]
  }

  lemma NoControlAppend(a: string, b: string)
    requires NoControl(a) && NoControl(b)
    ensures NoControl(a + b)
  {
    forall i | 0 <= i < |a + b| ensures ' ' <= (a + b)[i] {
      if i < |a| {
        assert (a + b)[i] == a[i];
      } else {
        assert (a + b)[i] == b[i - |a|];
      }
    }
  }

  lemma EscapeCharNoControl(c: char)
    ensures NoControl(EscapeChar(c))
  {
    assert forall k :: 0 <= k < |HexDigits| ==> ' ' <= HexDigits[k];
  }

  lemma {:induction false} EscapeNoControl(s: string)
    ensures NoControl(Escape(s))
    decreases |s|
  {
    if s != [] {
      EscapeCharNoControl(s[0]);
      EscapeNoControl(s[1..]);
      NoControlAppend(EscapeChar(s[0]), Escape(s[1..]));
    }
  }

  lemma QuoteNoControl(s: string)
    ensures NoControl(Quote(s))
  {
    EscapeNoControl(s);
    NoControlAppend("\"", Escape(s));
    NoControlAppend("\"" + Escape(s), "\"");
  }

  lemma {:induction false} QuoteAllNoControl(xs: seq<string>)
    ensures forall k :: 0 <= k < |xs| ==> NoControl(QuoteAll(xs)[k])
    decreases |xs|
  {
    if xs != [] {
      QuoteNoControl(xs[0]);
      QuoteAllNoControl(xs[1..]);
      var q := QuoteAll(xs);
      assert q == [Quote(xs[0])] + QuoteAll(xs[1..]);
      forall k | 1 <= k < |xs| ensures NoControl(q[k]) {
        assert q[k] == QuoteAll(xs[1..])[k - 1];
      }
    }
  }

  lemma {:induction false} JoinNoControl(q: seq<string>)
    requires forall k :: 0 <= k < |q| ==> NoControl(q[k])
    ensures NoControl(Text.Join(q, ","))
    decreases |q|
  {
    if |q| > 1 {
      JoinNoControl(q[1..]);
      NoControlAppend(q[0], ",");
      NoControlAppend(q[0] + ",", Text.Join(q[1..], ","));
    }
  }

  // ---------------------------------------------------------------- reading

  function HexValue(c: char): Option<nat> {
    if '0' <= c <= '9' then Some(c as int - '0' as int)
    else if 'a' <= c <= 'f' then Some(c as int - 'a' as int + 10)
    else if 'A' <= c <= 'F' then Some(c as int - 'A' as int + 10)
    else None
  }

  /** The value of four hexadecimal digits. */
  function Hex4(t: string): Option<nat>
    requires |t| == 4
  {
    match (HexValue(t[0]), HexValue(t[1]), HexValue(t[2]), HexValue(t[3]))
    case (Some(a), Some(b), Some(c), Some(d)) => Some(((a * 16 + b) * 16 + c) * 16 + d)
    case _ => None
  }

  /** The character a one-letter escape `\x` stands for. */
  function SimpleEscape(x: char): Option<char> {
    if x == '"' then Some('"')
    else if x == '\\' then Some('\\')
    else if x == '/' then Some('/')
    else if x == 'b' then Some('\U{0008}')
    else if x == 'f' then Some('\U{000C}')
    else if x == 'n' then Some('\n')
    else if x == 'r' then Some('\r')
    else if x == 't' then Some('\t')
    else None
  }

  /** Reads the body of a string literal whose opening quote is already
      consumed: the decoded characters and what follows the closing quote.
      Raw control characters and surrogate escapes are refused. */
  function ReadStringBody(t: string): Option<(string, string)>
    decreases |t|
  {
    if t == [] then None
    else if t[0] == '"' then Some(([], t[1..]))
    else if t[0] == '\\' then
      if |t| < 2 then None
      else if t[1] == 'u' then
        if |t| < 6 then None
        else match Hex4(t[2..6])
          case None => None
          case Some(v) =>
            if v < 0xD800 || 0xE000 <= v then
              match ReadStringBody(t[6..])
              case None => None
              case Some((s, rest)) => Some(([v as char] + s, rest))
            else None
      else match SimpleEscape(t[1])
        case None => None
        case Some(c) =>
          match ReadStringBody(t[2..])
          case None => None
          case Some((s, rest)) => Some(([c] + s, rest))
    else if t[0] < ' ' then None
    else match ReadStringBody(t[1..])
      case None => None
      case Some((s, rest)) => Some(([t[0]] + s, rest))
  }

  /** Reads `"..." , "..." ... ]`: the elements after an opening `[` of a
      non-empty array, up to and including the closing `]`. */
  function ReadElements(t: string): Option<seq<string>>
    decreases |t|
  {
    if t == [] || t[0] != '"' then None
    else match ReadStringBody(t[1..])
      case None => None
      case Some((x, rest)) =>
        if rest == "]" then Some([x])
        else if rest != [] && rest[0] == ',' && |rest| < |t| then
          match ReadElements(rest[1..])
          case None => None
          case Some(xs) => Some([x] + xs)
        else None
  }

  /** Reads a JSON array of strings written without white space. */
  function ParseStrings(s: string): Option<seq<string>> {
    if s == "[]" then Some([])
    else if |s| >= 1 && s[0] == '[' then ReadElements(s[1..])
    else None
  }

  // ---------------------------------------------------------------- round trip

  lemma HexDigitsRead(n: nat)
    requires n < 16
    ensures HexValue(HexDigits[n]) == Some(n)
  {
  }

  /** Reading one escaped character gives the character back, whatever follows. */
  lemma ReadEscapedChar(c: char, more: string)
    ensures |EscapeChar(c) + more| > |more|
    ensures ReadStringBody(EscapeChar(c) + more) ==
              match ReadStringBody(more)
              case None => None
              case Some((s, rest)) => Some(([c] + s, rest))
  {
    var t := EscapeChar(c) + more;
    if c == '"' || c == '\\' || c == '\U{0008}' || c == '\t' || c == '\n' || c == '\U{000C}' || c == '\r' {
      assert t[2..] == more;
    } else if c < ' ' {
      var hi, lo := c as int / 16, c as int % 16;
      assert hi == 0 || hi == 1;
      HexDigitsRead(hi);
      HexDigitsRead(lo);
      assert t[2..6] == ['0', '0', HexDigits[hi], HexDigits[lo]];
      assert Hex4(t[2..6]) == Some(c as int);
      assert (c as int) as char == c;
      assert t[6..] == more;
    } else {
      assert t[1..] == more;
    }
  }

  /** The body of a quoted string reads back as the string. */
  lemma {:induction false} ReadEscaped(s: string, rest: string)
    ensures ReadStringBody(Escape(s) + "\"" + rest) == Some((s, rest))
    decreases |s|
  {
    if s == [] {
      assert Escape(s) + "\"" + rest == "\"" + rest;
    } else {
      var more := Escape(s[1..]) + "\"" + rest;
      assert Escape(s) + "\"" + rest == EscapeChar(s[0]) + more;
      ReadEscapedChar(s[0], more);
      ReadEscaped(s[1..], rest);
      assert [s[0]] + s[1..] == s;
    }
  }

  /** The joined, quoted elements of a non-empty list followed by `]` read
      back as the list. */
  lemma {:induction false} ReadQuoted(xs: seq<string>)
    requires xs != []
    ensures ReadElements(Text.Join(QuoteAll(xs), ",") + "]") == Some(xs)
    decreases |xs|
  {
    var q := QuoteAll(xs);
    var t := Text.Join(q, ",") + "]";
    if |xs| == 1 {
      assert t == "\"" + (Escape(xs[0]) + "\"" + "]");
      ReadEscaped(xs[0], "]");
      assert t[1..] == Escape(xs[0]) + "\"" + "]";
      assert t[0] == '"';
      assert [xs[0]] == xs;
    } else {
      var tail := Text.Join(QuoteAll(xs[1..]), ",") + "]";
      assert q[1..] == QuoteAll(xs[1..]);
      assert t == "\"" + (Escape(xs[0]) + "\"" + ("," + tail));
      assert t[1..] == Escape(xs[0]) + "\"" + ("," + tail);
      ReadEscaped(xs[0], "," + tail);
      assert ("," + tail)[1..] == tail;
      assert ("," + tail) != "]" by { assert |tail| >= 1; }
      assert |"," + tail| < |t|;
      ReadQuoted(xs[1..]);
      assert [xs[0]] + xs[1..] == xs;
    }
  }

  /** `JSON.stringify` of a string array parses back to the same array. */
  lemma {:induction false} StringifyRoundTrip(xs: seq<string>)
    ensures ParseStrings(StringifyStrings(xs)) == Some(xs)
  {
    var s := StringifyStrings(xs);
    if xs == [] {
      assert s == "[]";
    } else {
      ReadQuoted(xs);
      var body := Text.Join(QuoteAll(xs), ",") + "]";
      assert s == "[" + body;
      assert s[1..] == body;
      assert s != "[]" by {
        assert |Text.Join(QuoteAll(xs), ",")| >= 2 by { JoinLength(QuoteAll(xs)); }
      }
    }
  }

  /** A joined list of quoted strings is at least as long as its first one. */
  lemma JoinLength(q: seq<string>)
    requires q != [] && |q[0]| >= 2
    ensures |Text.Join(q, ",")| >= 2
  {
  }
}
