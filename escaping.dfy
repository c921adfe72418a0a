/**
 * How `TracerService.traceCode` hands the user's source to the embedded
 * interpreter: every backslash is doubled, the text is split on `\n`, the
 * lines are written into the generated script as a JSON array literal, the
 * interpreter reads that literal back as a list of strings, and the lines
 * are joined with `\n` again before compiling.
 */
module Escaping {
  import opened Wrappers
  import opened Text

  /** JavaScript's `code.replace(/\\/g, "\\\\")`: every backslash doubled. */
  function Escape(s: string): string {
    if s == [] then "" else (if s[0] == '\\' then "\\\\" else [s[0]]) + Escape(s[1..])
  }

  /** The number of backslashes in `s`. */
  function Backslashes(s: string): nat {
    if s == [] then 0 else (if s[0] == '\\' then 1 else 0) + Backslashes(s[1..])
  }

  /** `s` with every backslash removed. */
  function WithoutBackslashes(s: string): string {
    if s == [] then "" else (if s[0] == '\\' then "" else [s[0]]) + WithoutBackslashes(s[1..])
  }

  /** The inverse of escaping: every doubled backslash collapsed to one. */
  function Unescape(t: string): string {
    if |t| >= 2 && t[0] == '\\' && t[1] == '\\' then "\\" + Unescape(t[2..])
    else if t == [] then ""
    else [t[0]] + Unescape(t[1..])
  }

  /** Escaping lengthens the text by exactly its number of backslashes. */
  lemma {:induction false} EscapeLength(s: string)
    ensures |Escape(s)| == |s| + Backslashes(s)
  {
    if s != [] {
      EscapeLength(s[1..]);
    }
  }

  /** Apart from backslashes, escaping changes no character and moves none. */
  lemma {:induction false} EscapeChangesOnlyBackslashes(s: string)
    ensures WithoutBackslashes(Escape(s)) == WithoutBackslashes(s)
  {
    if s != [] {
      EscapeChangesOnlyBackslashes(s[1..]);
      var head := if s[0] == '\\' then "\\\\" else [s[0]];
      WithoutBackslashesAppend(head, Escape(s[1..]));
      assert Escape(s) == head + Escape(s[1..]);
    }
  }

  lemma {:induction false} WithoutBackslashesAppend(a: string, b: string)
    ensures WithoutBackslashes(a + b) == WithoutBackslashes(a) + WithoutBackslashes(b)
  {
    if a == [] {
      assert a + b == b;
    } else {
      assert (a + b)[0] == a[0] && (a + b)[1..] == a[1..] + b;
      WithoutBackslashesAppend(a[1..], b);
      var head := if a[0] == '\\' then "" else [a[0]];
      assert WithoutBackslashes(a + b) == head + (WithoutBackslashes(a[1..]) + WithoutBackslashes(b));
    }
  }

  /** Collapsing doubled backslashes undoes escaping, so escaping loses nothing. */
  lemma {:induction false} UnescapeEscape(s: string)
    ensures Unescape(Escape(s)) == s
  {
    if s != [] {
      UnescapeEscape(s[1..]);
      var t := Escape(s);
      if s[0] == '\\' {
        assert t == "\\\\" + Escape(s[1..]) && t[2..] == Escape(s[1..]);
      } else {
        assert t == [s[0]] + Escape(s[1..]) && t[1..] == Escape(s[1..]);
      }
    }
  }

  lemma {:induction false} EscapeAppend(a: string, b: string)
    ensures Escape(a + b) == Escape(a) + Escape(b)
  {
    if a == [] {
      assert a + b == b;
    } else {
      assert (a + b)[0] == a[0] && (a + b)[1..] == a[1..] + b;
      EscapeAppend(a[1..], b);
      var head := if a[0] == '\\' then "\\\\" else [a[0]];
      assert Escape(a + b) == head + (Escape(a[1..]) + Escape(b));
    }
  }

  /** Escaping each line of a split text. */
  function EscapeEach(lines: seq<string>): (r: seq<string>)
    ensures |r| == |lines|
  {
    if lines == [] then [] else [Escape(lines[0])] + EscapeEach(lines[1..])
  }

  /** Splitting the text after one leading character. */
  lemma SplitCons(c: char, t: string, sep: char)
    ensures Split([c] + t, sep) ==
      if c == sep then [""] + Split(t, sep)
      else [[c] + Split(t, sep)[0]] + Split(t, sep)[1..]
  {
    assert ([c] + t)[1..] == t;
  }

  /** A prefix without the separator joins the first part of what follows it. */
  lemma {:induction false} SplitPrepend(p: string, t: string, sep: char)
    requires forall i :: 0 <= i < |p| ==> p[i] != sep
    ensures Split(p + t, sep)[0] == p + Split(t, sep)[0]
    ensures Split(p + t, sep)[1..] == Split(t, sep)[1..]
  {
    var parts := Split(t, sep);
    if p == [] {
      assert p + t == t && p + parts[0] == parts[0];
    } else {
      var q := p[1..];
      var inner := Split(q + t, sep);
      assert inner[0] == q + parts[0] && inner[1..] == parts[1..] by {
        SplitPrepend(q, t, sep);
      }
      assert Split(p + t, sep) == [[p[0]] + inner[0]] + inner[1..] by {
        assert p + t == [p[0]] + (q + t);
        SplitCons(p[0], q + t, sep);
      }
      assert [p[0]] + (q + parts[0]) == p + parts[0];
    }
  }

  /** Escaping never adds or removes a line break: line k of the escaped text is line k of the text, escaped. */
  lemma {:induction false} SplitEscape(s: string)
    ensures Split(Escape(s), '\n') == EscapeEach(Split(s, '\n'))
  {
    if s != [] {
      SplitEscape(s[1..]);
      var rest := Split(s[1..], '\n');
      SplitCons(s[0], s[1..], '\n');
      assert s == [s[0]] + s[1..];
      EscapeAppend([s[0]], s[1..]);
      var p := Escape([s[0]]);
      if s[0] == '\n' {
        assert p == ['\n'];
        SplitCons('\n', Escape(s[1..]), '\n');
        assert ([""] + rest)[1..] == rest;
      } else {
        assert p == if s[0] == '\\' then "\\\\" else [s[0]];
        SplitPrepend(p, Escape(s[1..]), '\n');
        EscapeAppend([s[0]], rest[0]);
        EscapeEachTail(rest);
        var lines := [[s[0]] + rest[0]] + rest[1..];
        assert lines[1..] == rest[1..];
      }
    }
  }

  /** Line k of the escaped lines is line k escaped. */
  lemma {:induction false} EscapeEachAt(lines: seq<string>, k: nat)
    requires k < |lines|
    ensures EscapeEach(lines)[k] == Escape(lines[k])
  {
    if k > 0 {
      EscapeEachAt(lines[1..], k - 1);
    }
  }

  lemma EscapeEachTail(lines: seq<string>)
    requires lines != []
    ensures EscapeEach(lines)[1..] == EscapeEach(lines[1..])
  {
  }

  /** The lower-case hexadecimal digit for `d`. */
  function HexDigit(d: nat): (c: char)
    requires d < 16
  {
    "0123456789abcdef"[d]
  }

  /** The value of a hexadecimal digit of either case. */
  function HexValue(c: char): (r: Option<nat>)
    ensures r.Some? ==> r.value < 16
  {
    if '0' <= c <= '9' then Some((c as int) - ('0' as int))
    else if 'a' <= c <= 'f' then Some((c as int) - ('a' as int) + 10)
    else if 'A' <= c <= 'F' then Some((c as int) - ('A' as int) + 10)
    else None
  }

  lemma HexRoundTrip(d: nat)
    requires d < 16
    ensures HexValue(HexDigit(d)) == Some(d)
  {
    var digits := "0123456789abcdef";
    if d < 10 {
      assert digits[d] as int == '0' as int + d by {
        assert digits[..10] == "0123456789";
      }
    } else {
      assert digits[d] as int == 'a' as int + d - 10 by {
        assert digits[10..] == "abcdef";
      }
    }
  }

  /** The value of four hexadecimal digits, if they are digits. */
  function Hex4(t: string): (r: Option<nat>)
    requires |t| == 4
    ensures r.Some? ==> r.value < 0x10000
  {
    match (HexValue(t[0]), HexValue(t[1]), HexValue(t[2]), HexValue(t[3]))
    case (Some(a), Some(b), Some(c), Some(d)) => Some(a * 0x1000 + b * 0x100 + c * 0x10 + d)
    case _ => None
  }

  /**
   * ECMAScript's `JSON.stringify` for one character inside a string literal
   * (QuoteJSONString): quote and backslash escaped, the five short control
   * escapes, other control characters as `\u00XX` in lower-case hex.
   */
  function JsonChar(c: char): string {
    if c == '"' then "\\\""
    else if c == '\\' then "\\\\"
    else if c == '\U{8}' then "\\b"
    else if c == '\t' then "\\t"
    else if c == '\n' then "\\n"
    else if c == '\U{c}' then "\\f"
    else if c == '\r' then "\\r"
    else if c < ' ' then "\\u00" + [HexDigit(c as int / 16), HexDigit(c as int % 16)]
    else [c]
  }

  /** The body of the JSON string literal for `s`. */
  function JsonQuote(s: string): string {
    if s == [] then "" else JsonChar(s[0]) + JsonQuote(s[1..])
  }

  /** Python's one-letter string escapes that JSON can also produce. */
  function ShortEscape(c: char): Option<char> {
    if c == '\\' then Some('\\')
    else if c == '"' then Some('"')
    else if c == '\'' then Some('\'')
    else if c == 'b' then Some('\U{8}')
    else if c == 't' then Some('\t')
    else if c == 'n' then Some('\n')
    else if c == 'f' then Some('\U{c}')
    else if c == 'r' then Some('\r')
    else None
  }

  function Prepend(c: char, rest: Option<string>): Option<string> {
    match rest
    case Some(r) => Some([c] + r)
    case None => None
  }

  /**
   * The character a backslash escape at the head of `t` stands for, and the
   * escape's length: a short escape, or `\uXXXX` naming a scalar value.
   */
  function DecodeEscape(t: string): (r: Option<(char, nat)>)
    requires |t| >= 2 && t[0] == '\\'
    ensures r.Some? ==> 2 <= r.value.1 <= |t|
  {
    match ShortEscape(t[1])
    case Some(c) => Some((c, 2))
    case None =>
      if t[1] == 'u' && |t| >= 6 then
        match Hex4(t[2..6])
        case Some(v) => if v < 0xD800 || 0xE000 <= v then Some((v as char, 6)) else None
        case None => None
      else None
  }

  /**
   * How Python reads the body of a double-quoted string literal: a bare
   * quote or line break ends or breaks the literal (None), the short escapes
   * and `\uXXXX` stand for one character. Escapes JSON never writes (octal,
   * `\x`, `\U`, `\N`, line continuation) and `\u` escapes naming a lone
   * surrogate are outside this model (None).
   */
  function PyDecode(t: string): Option<string>
    decreases |t|
  {
    if t == [] then Some("")
    else if t[0] == '"' || t[0] == '\n' then None
    else if t[0] != '\\' then Prepend(t[0], PyDecode(t[1..]))
    else if |t| < 2 then None
    else match DecodeEscape(t)
      case Some((c, n)) => Prepend(c, PyDecode(t[n..]))
      case None => None
  }

  /** Reading back one escaped character consumes exactly its escape. */
  lemma DecodeChar(c: char, rest: string)
    ensures PyDecode(JsonChar(c) + rest) == Prepend(c, PyDecode(rest))
  {
    var t := JsonChar(c) + rest;
    if c == '"' || c == '\\' || c == '\U{8}' || c == '\t' || c == '\n' || c == '\U{c}' || c == '\r' {
      assert DecodeEscape(t) == Some((c, 2));
      assert t[2..] == rest;
    } else if c < ' ' {
      DecodeControl(c, rest);
    } else {
      assert t[1..] == rest;
    }
  }

  /** A control character written as `\u00XX` reads back as itself. */
  lemma DecodeControl(c: char, rest: string)
    requires c < ' ' && c != '\U{8}' && c != '\t' && c != '\n' && c != '\U{c}' && c != '\r'
    ensures PyDecode(JsonChar(c) + rest) == Prepend(c, PyDecode(rest))
  {
    var t := JsonChar(c) + rest;
    var n := c as int;
    HexRoundTrip(n / 16);
    HexRoundTrip(n % 16);
    assert t[..6] == "\\u00" + [HexDigit(n / 16), HexDigit(n % 16)];
    assert t[2..6] == ['0', '0', HexDigit(n / 16), HexDigit(n % 16)];
    assert Hex4(t[2..6]) == Some(n);
    assert DecodeEscape(t) == Some((c, 6));
    assert t[6..] == rest;
  }

  /** Python reads the JSON literal of any string back as that same string. */
  lemma {:induction false} JsonReadBack(s: string)
    ensures PyDecode(JsonQuote(s)) == Some(s)
  {
    if s != [] {
      JsonReadBack(s[1..]);
      DecodeChar(s[0], JsonQuote(s[1..]));
      assert [s[0]] + s[1..] == s;
    }
  }

  /** The `code_lines` list Python builds from the JSON array of lines written into the script. */
  function ReadBackLines(lines: seq<string>): Option<seq<string>> {
    if lines == [] then Some([])
    else match (PyDecode(JsonQuote(lines[0])), ReadBackLines(lines[1..]))
      case (Some(l), Some(ls)) => Some([l] + ls)
      case _ => None
  }

  /** The JSON round trip of the line list is lossless: Python sees exactly the lines JavaScript wrote. */
  lemma {:induction false} ReadBackLinesExact(lines: seq<string>)
    ensures ReadBackLines(lines) == Some(lines)
  {
    if lines != [] {
      JsonReadBack(lines[0]);
      ReadBackLinesExact(lines[1..]);
      assert [lines[0]] + lines[1..] == lines;
    }
  }

  /** `code_lines` as the source computes it: the escaped code split on `\n` (tracer.ts:26, :81). */
  function CodeLinesAsWritten(code: string): (lines: seq<string>)
    ensures |lines| >= 1 && forall k :: 0 <= k < |lines| ==> '\n' !in lines[k]
  {
    SplitPartsFree(Escape(code), '\n');
    Split(Escape(code), '\n')
  }

  /** `code_lines` once the escaping step is dropped: the code split on `\n`. */
  function CodeLines(code: string): (lines: seq<string>)
    ensures |lines| >= 1 && forall k :: 0 <= k < |lines| ==> '\n' !in lines[k]
  {
    SplitPartsFree(code, '\n');
    Split(code, '\n')
  }

  /** Escaping leaves a text without backslashes unchanged. */
  lemma {:induction false} EscapeKeeps(s: string)
    requires '\\' !in s
    ensures Escape(s) == s
  {
    if s != [] {
      assert '\\' !in s[1..];
      EscapeKeeps(s[1..]);
      assert [s[0]] + s[1..] == s;
    }
  }

  /** For code without a backslash the lines as written are the code's own lines. */
  lemma AsWrittenWithoutBackslash(code: string)
    requires '\\' !in code
    ensures CodeLinesAsWritten(code) == CodeLines(code)
  {
    EscapeKeeps(code);
  }

  /** Joining the escaped lines gives back the escaped code exactly, and line k is source line k escaped. */
  lemma AsWrittenLines(code: string)
    ensures ReadBackLines(CodeLinesAsWritten(code)) == Some(CodeLinesAsWritten(code))
    ensures Join(CodeLinesAsWritten(code), '\n') == Escape(code)
    ensures CodeLinesAsWritten(code) == EscapeEach(CodeLines(code))
  {
    ReadBackLinesExact(CodeLinesAsWritten(code));
    JoinSplit(Escape(code), '\n');
    SplitEscape(code);
  }

  /** As written, the interpreter compiles a text that differs from the user's code whenever it holds a backslash. */
  lemma AsWrittenCompilesOtherText(code: string)
    requires '\\' in code
    ensures Join(CodeLinesAsWritten(code), '\n') != code
  {
    AsWrittenLines(code);
    EscapeLength(code);
    BackslashCounted(code);
  }

  lemma {:induction false} BackslashCounted(s: string)
    requires '\\' in s
    ensures Backslashes(s) > 0
  {
    if s[0] != '\\' {
      assert '\\' in s[1..];
      BackslashCounted(s[1..]);
    }
  }

  /** Without the escaping step the interpreter compiles exactly the user's code. */
  lemma CompilesUserCode(code: string)
    ensures ReadBackLines(CodeLines(code)) == Some(CodeLines(code))
    ensures Join(CodeLines(code), '\n') == code
    ensures Split(Join(CodeLines(code), '\n'), '\n') == CodeLines(code)
  {
    ReadBackLinesExact(CodeLines(code));
    JoinSplit(code, '\n');
  }
}
