/** The hand-written JSON text helpers of the control plane: escaping, key search, and extraction of
    strings, string arrays and numbers from a flat object. */
module JsonText {
  import opened Words
  import opened Options

  const QUOTE: char := '\"'
  const BACKSLASH: char := '\\'

  // ---- Standard text operations --------------------------------------------

  /** `str::replace`: non-overlapping occurrences from the left. */
  function Replace(s: string, pat: string, rep: string): string
    requires pat != ""
  {
    if |s| < |pat| then s
    else if s[..|pat|] == pat then rep + Replace(s[|pat|..], pat, rep)
    else [s[0]] + Replace(s[1..], pat, rep)
  }

  /** What follows the first occurrence of a needle, as `find` and a slice give it. */
  function After(s: string, needle: string): Option<string>
    requires needle != ""
  {
    if |s| < |needle| then None
    else if s[..|needle|] == needle then Some(s[|needle|..])
    else After(s[1..], needle)
  }

  /** Unicode White_Space, as `str::trim` sees it. */
  predicate Whitespace(c: char) {
    '\t' <= c <= '\r' || c == ' ' || c == '\U{85}' || c == '\U{A0}' || c == '\U{1680}'
    || '\U{2000}' <= c <= '\U{200A}' || c == '\U{2028}' || c == '\U{2029}' || c == '\U{202F}'
    || c == '\U{205F}' || c == '\U{3000}'
  }

  function TrimStart(s: string): string {
    if s != "" && Whitespace(s[0]) then TrimStart(s[1..]) else s
  }

  function TrimEnd(s: string): string {
    if s != "" && Whitespace(s[|s| - 1]) then TrimEnd(s[..|s| - 1]) else s
  }

  function Trim(s: string): string {
    TrimEnd(TrimStart(s))
  }

  function SplitOn(s: string, sep: char): (pieces: seq<string>)
    ensures pieces != []
  {
    if s == "" then [""]
    else
      var rest := SplitOn(s[1..], sep);
      if s[0] == sep then [""] + rest else [[s[0]] + rest[0]] + rest[1..]
  }

  function Before(s: string, c: char): string {
    if s == "" || s[0] == c then "" else [s[0]] + Before(s[1..], c)
  }

  /** Nothing after the first stop matters. */
  lemma {:induction false} BeforeStops(u: string, t: string, c: char)
    requires t != "" && t[0] == c
    ensures Before(u + t, c) == Before(u, c) && c !in Before(u, c)
    ensures c !in u ==> Before(u, c) == u
  {
    if u == "" {
      assert u + t == t;
    } else {
      assert (u + t)[1..] == u[1..] + t;
      BeforeStops(u[1..], t, c);
    }
  }

  lemma {:induction false} SplitPiece(piece: string, sep: char)
    requires sep !in piece
    ensures SplitOn(piece, sep) == [piece]
  {
    if piece != "" {
      SplitPiece(piece[1..], sep);
      assert [piece[1..]][1..] == [] && [piece[0]] + piece[1..] == piece;
    }
  }

  lemma {:induction false} SplitFirst(piece: string, t: string, sep: char)
    requires sep !in piece
    ensures SplitOn(piece + [sep] + t, sep) == [piece] + SplitOn(t, sep)
  {
    if piece == "" {
      assert piece + [sep] + t == [sep] + t;
    } else {
      assert (piece + [sep] + t)[1..] == piece[1..] + [sep] + t;
      SplitFirst(piece[1..], t, sep);
      var rest := [piece[1..]] + SplitOn(t, sep);
      assert rest[0] == piece[1..] && rest[1..] == SplitOn(t, sep) && [piece[0]] + piece[1..] == piece;
    }
  }

  // ---- Escaping ------------------------------------------------------------

  function JsonEsc(s: string): string {
    Replace(Replace(Replace(Replace(s, "\\", "\\\\"), "\"", "\\\""), "\n", "\\n"), "\r", "\\r")
  }

  /** The two passes that undo it. */
  function Unescape(s: string): string {
    Replace(Replace(s, "\\\"", "\""), "\\\\", "\\")
  }

  function EscChar(c: char): (e: string)
    ensures e != "" && e[0] != QUOTE
  {
    if c == BACKSLASH then "\\\\" else if c == QUOTE then "\\\"" else if c == '\n' then "\\n"
    else if c == '\r' then "\\r" else [c]
  }

  function Esc(s: string): string {
    if s == "" then "" else EscChar(s[0]) + Esc(s[1..])
  }

  /** What one pass leaves of an escaped character, and what both leave. */
  function HalfChar(c: char): string {
    if c == QUOTE then [QUOTE] else EscChar(c)
  }

  function Half(s: string): string {
    if s == "" then "" else HalfChar(s[0]) + Half(s[1..])
  }

  function LossyChar(c: char): string {
    if c == '\n' then "\\n" else if c == '\r' then "\\r" else [c]
  }

  /** A line break comes back as its two-character escape. */
  function Lossy(s: string): string {
    if s == "" then "" else LossyChar(s[0]) + Lossy(s[1..])
  }

  predicate NoBreaks(s: string) {
    '\n' !in s && '\r' !in s
  }

  lemma {:induction false} ReplaceHead(c: char, t: string, p: char, rep: string)
    ensures Replace([c] + t, [p], rep) == (if c == p then rep else [c]) + Replace(t, [p], rep)
  {
    assert ([c] + t)[..1] == [c] && ([c] + t)[1..] == t;
  }

  lemma {:induction false} ReplaceAppend(s: string, t: string, p: char, rep: string)
    ensures Replace(s + t, [p], rep) == Replace(s, [p], rep) + Replace(t, [p], rep)
  {
    hide Replace;
    if s == "" {
      assert s + t == t;
      ReplaceNothing([p], rep);
      assert "" + Replace(t, [p], rep) == Replace(t, [p], rep);
    } else {
      assert s + t == [s[0]] + (s[1..] + t) && s == [s[0]] + s[1..];
      ReplaceHead(s[0], s[1..] + t, p, rep);
      ReplaceHead(s[0], s[1..], p, rep);
      ReplaceAppend(s[1..], t, p, rep);
    }
  }

  /** The four replacements together escape character by character. */
  lemma {:induction false} EscapesEachCharacter(s: string)
    ensures JsonEsc(s) == Esc(s)
  {
    hide Replace;
    if s == "" {
      ReplaceNothing("\\", "\\\\");
      ReplaceNothing("\"", "\\\"");
      ReplaceNothing("\n", "\\n");
      ReplaceNothing("\r", "\\r");
    } else {
      EscapesEachCharacter(s[1..]);
      assert s == [s[0]] + s[1..];
      JsonEscHead(s[0], s[1..]);
    }
  }

  lemma ReplaceNothing(pat: string, rep: string)
    requires pat != ""
    ensures Replace("", pat, rep) == ""
  {
  }

  lemma JsonEscHead(c: char, t: string)
    ensures JsonEsc([c] + t) == EscChar(c) + JsonEsc(t)
  {
    hide Replace;
    var r1, t1 := if c == BACKSLASH then "\\\\" else [c], Replace(t, "\\", "\\\\");
    ReplaceHead(c, t, BACKSLASH, "\\\\");
    var r2, t2 := if c == QUOTE then "\\\"" else r1, Replace(t1, "\"", "\\\"");
    ReplaceAppend(r1, t1, QUOTE, "\\\"");
    ReplaceShort(r1, QUOTE, "\\\"");
    var r3, t3 := if c == '\n' then "\\n" else r2, Replace(t2, "\n", "\\n");
    ReplaceAppend(r2, t2, '\n', "\\n");
    ReplaceShort(r2, '\n', "\\n");
    ReplaceAppend(r3, t3, '\r', "\\r");
    ReplaceShort(r3, '\r', "\\r");
  }

  lemma ReplaceShort(s: string, p: char, rep: string)
    requires 1 <= |s| <= 2
    ensures |s| == 1 ==> Replace(s, [p], rep) == if s[0] == p then rep else s
    ensures p !in s ==> Replace(s, [p], rep) == s
  {
    ReplaceNothing([p], rep);
    if |s| == 1 {
      assert s == [s[0]] + "";
      ReplaceHead(s[0], "", p, rep);
    } else {
      assert s == [s[0]] + [s[1]] && [s[1]] == [s[1]] + "";
      ReplaceHead(s[0], [s[1]], p, rep);
      ReplaceHead(s[1], "", p, rep);
    }
  }

  /** The first pass turns every escaped quote back, and nothing else. */
  lemma {:induction false} FirstPass(s: string)
    ensures Replace(Esc(s), "\\\"", "\"") == Half(s)
  {
    hide Replace, EscChar, HalfChar;
    if s == "" {
      ReplaceNothing("\\\"", "\"");
    } else {
      FirstPass(s[1..]);
      FirstPassHead(s[0], Esc(s[1..]));
    }
  }

  lemma FirstPassHead(c: char, e: string)
    requires e == "" || e[0] != QUOTE
    ensures Replace(EscChar(c) + e, "\\\"", "\"") == HalfChar(c) + Replace(e, "\\\"", "\"")
  {
    hide Replace;
    var pat := "\\\"";
    if c == QUOTE {
      ReplaceMatch(BACKSLASH, QUOTE, e, "\"");
    } else if |EscChar(c)| == 1 {
      ReplaceMiss(c, e, pat, "\"");
    } else {
      ReplaceMissTwo(EscChar(c)[0], EscChar(c)[1], e, pat, "\"");
    }
  }

  /** The second pass pairs up the doubled backslashes. */
  lemma {:induction false} SecondPass(s: string)
    ensures Replace(Half(s), "\\\\", "\\") == Lossy(s)
  {
    hide Replace, HalfChar, LossyChar;
    if s == "" {
      ReplaceNothing("\\\\", "\\");
    } else {
      SecondPass(s[1..]);
      SecondPassHead(s[0], Half(s[1..]));
    }
  }

  lemma SecondPassHead(c: char, h: string)
    ensures Replace(HalfChar(c) + h, "\\\\", "\\") == LossyChar(c) + Replace(h, "\\\\", "\\")
  {
    hide Replace;
    var pat := "\\\\";
    if c == BACKSLASH {
      ReplaceMatch(BACKSLASH, BACKSLASH, h, "\\");
    } else if |HalfChar(c)| == 1 {
      ReplaceMiss(c, h, pat, "\\");
    } else {
      ReplaceMissTwo(HalfChar(c)[0], HalfChar(c)[1], h, pat, "\\");
    }
  }

  lemma ReplaceMissTwo(a: char, b: char, t: string, pat: string, rep: string)
    requires |pat| == 2 && b != pat[1] && (b != pat[0] || t == "" || t[0] != pat[1])
    ensures Replace([a, b] + t, pat, rep) == [a, b] + Replace(t, pat, rep)
  {
    hide Replace;
    assert [a, b] + t == [a] + ([b] + t);
    ReplaceMiss(a, [b] + t, pat, rep);
    ReplaceMiss(b, t, pat, rep);
  }

  lemma ReplaceMatch(a: char, b: char, t: string, rep: string)
    ensures Replace([a, b] + t, [a, b], rep) == rep + Replace(t, [a, b], rep)
  {
    assert ([a, b] + t)[..2] == [a, b] && ([a, b] + t)[2..] == t;
  }

  lemma ReplaceMiss(c: char, t: string, pat: string, rep: string)
    requires |pat| == 2 && (c != pat[0] || t == "" || t[0] != pat[1])
    ensures Replace([c] + t, pat, rep) == [c] + Replace(t, pat, rep)
  {
    var s := [c] + t;
    assert s[1..] == t;
    if |t| > 0 {
      assert s[..2][0] == c && s[..2][1] == t[0];
    }
  }

  /** Unescaping undoes escaping exactly on text without line breaks. */
  lemma UnescapeUndoesEsc(s: string)
    ensures Unescape(JsonEsc(s)) == Lossy(s)
    ensures Unescape(JsonEsc(s)) == s <==> NoBreaks(s)
  {
    EscapesEachCharacter(s);
    FirstPass(s);
    SecondPass(s);
    LossyExactly(s);
  }

  lemma {:induction false} LossyExactly(s: string)
    ensures NoBreaks(Lossy(s))
    ensures NoBreaks(s) ==> Lossy(s) == s
    ensures s != "" ==> Lossy(s) != ""
  {
    if s != "" {
      LossyExactly(s[1..]);
      assert s == [s[0]] + s[1..];
    }
  }

  // ---- Extraction ----------------------------------------------------------

  function Shift(k: nat, r: Option<nat>): Option<nat> {
    if r.Some? then Some(k + r.value) else None
  }

  /** Where the string that starts here ends: the first quote not taken by a backslash. */
  function StrEnd(s: string): (r: Option<nat>)
    ensures r.Some? ==> r.value < |s| && s[r.value] == QUOTE
  {
    if s == "" then None
    else if s[0] == BACKSLASH then if |s| < 2 then None else Shift(2, StrEnd(s[2..]))
    else if s[0] == QUOTE then Some(0)
    else Shift(1, StrEnd(s[1..]))
  }

  /** One turn of the loop. */
  lemma StrEndStep(s: string, i: nat)
    requires i < |s|
    ensures s[i] == BACKSLASH && i + 1 == |s| ==> StrEnd(s[i..]) == None
    ensures s[i] == BACKSLASH && i + 1 < |s| ==> StrEnd(s[i..]) == Shift(2, StrEnd(s[i + 2..]))
    ensures s[i] == QUOTE ==> StrEnd(s[i..]) == Some(0)
    ensures s[i] != BACKSLASH && s[i] != QUOTE ==> StrEnd(s[i..]) == Shift(1, StrEnd(s[i + 1..]))
  {
    hide Shift;
    assert s[i..][1..] == s[i + 1..];
    assert i + 1 < |s| ==> s[i..][2..] == s[i + 2..];
  }

  method JsonStrEnd(s: string) returns (r: Option<nat>)
    ensures r == StrEnd(s)
  {
    hide StrEnd;
    var i := 0;
    assert s[0..] == s;
    while i < |s|
      invariant i <= |s|
      invariant StrEnd(s) == Shift(i, StrEnd(s[i..]))
    {
      StrEndStep(s, i);
      var c := s[i];
      if c == BACKSLASH {
        if i + 1 == |s| {
          return None;
        }
        i := i + 2;
      } else if c == QUOTE {
        return Some(i);
      } else {
        i := i + 1;
      }
    }
    assert s[i..] == "";
    NoEnd();
    r := None;
  }

  lemma NoEnd()
    ensures StrEnd("") == None
  {
  }

  function Needle(key: string): (n: string)
    ensures |n| == |key| + 2
  {
    [QUOTE] + key + [QUOTE]
  }

  /** What follows the colon after a key, if the key is found and a colon follows it. */
  function AfterColon(json: string, key: string): Option<string> {
    match After(json, Needle(key))
    case None => None
    case Some(rest) =>
      var r := TrimStart(rest);
      if r != "" && r[0] == ':' then Some(TrimStart(r[1..])) else None
  }

  function ExtractStr(json: string, key: string): Option<string> {
    match AfterColon(json, key)
    case None => None
    case Some(rest) =>
      if rest == "" || rest[0] != QUOTE then None
      else
        match StrEnd(rest[1..])
        case None => None
        case Some(end) => Some(Unescape(rest[1..][..end]))
  }

  function StripQuotes(s: string): Option<string> {
    if |s| < 2 || s[0] != QUOTE || s[|s| - 1] != QUOTE then None else Some(s[1..|s| - 1])
  }

  function Unquoted(pieces: seq<string>): seq<string> {
    if pieces == [] then []
    else
      var rest := Unquoted(pieces[1..]);
      match StripQuotes(Trim(pieces[0]))
      case Some(item) => [item] + rest
      case None => rest
  }

  function ExtractStrArray(json: string, key: string): seq<string> {
    match AfterColon(json, key)
    case None => []
    case Some(rest) =>
      if rest == "" || rest[0] != '[' then [] else Unquoted(SplitOn(Before(rest[1..], ']'), ','))
  }

  // ---- Numbers -------------------------------------------------------------

  predicate Digit(c: char) {
    '0' <= c <= '9'
  }

  function Digits(s: string): string {
    if s == "" || !Digit(s[0]) then "" else [s[0]] + Digits(s[1..])
  }

  function DecimalValue(s: string): nat {
    if s == "" then 0
    else 10 * DecimalValue(s[..|s| - 1]) + (if Digit(s[|s| - 1]) then s[|s| - 1] as int - '0' as int else 0)
  }

  function Decimal(n: nat): (s: string)
    ensures s != "" && forall i :: 0 <= i < |s| ==> Digit(s[i])
  {
    (if n < 10 then "" else Decimal(n / 10)) + [('0' as int + n % 10) as char]
  }

  lemma {:induction false} DecimalRoundTrip(n: nat)
    ensures DecimalValue(Decimal(n)) == n
  {
    var last := ('0' as int + n % 10) as char;
    var front := if n < 10 then "" else Decimal(n / 10);
    assert Decimal(n) == front + [last] && (front + [last])[..|front|] == front;
    if n >= 10 {
      DecimalRoundTrip(n / 10);
    }
  }

  /** The number after a key; 0 when it is missing, not a number, or over 64 bits. */
  function ObjU64(json: string, key: string): u64 {
    match AfterColon(json, key)
    case None => 0
    case Some(rest) =>
      var n := DecimalValue(Digits(rest));
      if n < 0x1_0000_0000_0000_0000 then n as u64 else 0
  }
}
