/** The percent-escape encoder `url_escape` (uparse.c:14-64): every reserved
    character of the 19-entry table is replaced by its three-character
    triple, every other character is copied, in one left-to-right pass into
    a buffer sized for the worst case. */
module PercentEscape {
  import opened Uparse

  /** ESCAPE_CHARS_COUNT (uparse.c:14). */
  const EscapeCharsCount: nat := 19

  /** ESCAPE_CHARS (uparse.c:16-18): the reserved characters, in table order. */
  const EscapeChars: seq<char> :=
    ['!', '#', '$', '%', '&', '\'', '(', ')', '*', '+',
     ',', '/', ':', ';', '=', '?', '@', ']', '[']

  /** PERCENT_REPLACE (uparse.c:19-21) as written: entry 17 (for ']') is
      "%5B" and entry 18 (for '[') is "%5D", the two are crossed. */
  const PercentReplace: seq<string> :=
    ["%21", "%23", "%24", "%25", "%26", "%27", "%28", "%29", "%2A", "%2B",
     "%2C", "%2F", "%3A", "%3B", "%3D", "%3F", "%40", "%5B", "%5D"]

  /** PERCENT_REPLACE with its last two entries in the intended order. */
  const CorrectedReplace: seq<string> :=
    ["%21", "%23", "%24", "%25", "%26", "%27", "%28", "%29", "%2A", "%2B",
     "%2C", "%2F", "%3A", "%3B", "%3D", "%3F", "%40", "%5D", "%5B"]

  /** A replacement table the encoder can use: one triple per reserved character. */
  predicate IsTable(table: seq<string>) {
    |table| == EscapeCharsCount && forall i :: 0 <= i < |table| ==> |table[i]| == 3
  }

  /** The index of `c` in ESCAPE_CHARS, where the inner `for` loop of
      url_escape breaks (uparse.c:44-54); EscapeCharsCount when the loop runs
      to its end without a match. */
  function IndexOf(c: char): (i: nat)
    ensures i <= EscapeCharsCount
    ensures i < EscapeCharsCount ==> EscapeChars[i] == c
    ensures forall k :: 0 <= k < i ==> EscapeChars[k] != c
  {
    match c
    case '!' => 0   case '#' => 1   case '$' => 2   case '%' => 3
    case '&' => 4   case '\'' => 5  case '(' => 6   case ')' => 7
    case '*' => 8   case '+' => 9   case ',' => 10  case '/' => 11
    case ':' => 12  case ';' => 13  case '=' => 14  case '?' => 15
    case '@' => 16  case ']' => 17  case '[' => 18
    case _ => EscapeCharsCount
  }

  /** One of the 19 characters url_escape replaces. */
  predicate IsReserved(c: char): (b: bool)
    ensures b <==> exists i :: 0 <= i < EscapeCharsCount && EscapeChars[i] == c
  {
    IndexOf(c) < EscapeCharsCount
  }

  /** What one input character becomes under `table`. */
  function EscapeCharWith(table: seq<string>, c: char): (r: string)
    requires IsTable(table)
    ensures |r| == if IsReserved(c) then 3 else 1
  {
    if IsReserved(c) then table[IndexOf(c)] else [c]
  }

  /** The encoder's output under `table`: the pieces of the characters of
      `s`, in input order. */
  function EscapeWith(table: seq<string>, s: string): string
    requires IsTable(table)
  {
    if s == [] then [] else EscapeWith(table, s[..|s| - 1]) + EscapeCharWith(table, s[|s| - 1])
  }

  /** What url_escape computes, with the table as written. */
  function Escape(s: string): (r: string)
    ensures |s| <= |r| <= 3 * |s|
  {
    TablesWellFormed();
    EscapeBounds(PercentReplace, s);
    EscapeWith(PercentReplace, s)
  }

  /** The encoder with the corrected table. */
  function EscapeCorrected(s: string): (r: string)
    ensures |s| <= |r| <= 3 * |s|
  {
    TablesWellFormed();
    EscapeBounds(CorrectedReplace, s);
    EscapeWith(CorrectedReplace, s)
  }

  /** How many characters of `s` are reserved. */
  function CountReserved(s: string): nat {
    if s == [] then 0
    else CountReserved(s[..|s| - 1]) + (if IsReserved(s[|s| - 1]) then 1 else 0)
  }

  lemma TablesWellFormed()
    ensures IsTable(PercentReplace) && IsTable(CorrectedReplace)
  {
  }

  /** Each reserved character is found at its own position: the table has
      no repeated entry. */
  lemma TableIndexOf(i: nat)
    requires i < EscapeCharsCount
    ensures IndexOf(EscapeChars[i]) == i
  {
  }

  /** Hexadecimal digits are never reserved. */
  lemma HexNotReserved(c: char)
    requires IsHexDigit(c)
    ensures !IsReserved(c) && c != '\0'
  {
  }

  /** A table whose entries are '%' followed by two hexadecimal digits. */
  predicate IsTripleTable(table: seq<string>)
    requires IsTable(table)
  {
    forall i :: 0 <= i < EscapeCharsCount ==>
      table[i][0] == '%' && IsHexDigit(table[i][1]) && IsHexDigit(table[i][2])
  }

  lemma TablesAreTriples()
    ensures IsTable(PercentReplace) && IsTripleTable(PercentReplace)
    ensures IsTable(CorrectedReplace) && IsTripleTable(CorrectedReplace)
  {
  }

  // ---------------------------------------------------------------------
  // The encoder as written: a pass over the input with a running index j
  // into a zero-filled buffer of 3 * |s| + 1 characters.

  /** url_escape (uparse.c:27-64). Returns the buffer and the index `len` at
      which the terminating NUL is written; the buffer reads back, as a C
      string, exactly Escape(s). The body of the C function's outer loop is
      the method EscapeOne; its two inner loops are FindEscape and
      CopyTriple. */
  method UrlEscape(s: string) returns (escS: array<char>, len: nat)
    requires IsCString(s)
    ensures fresh(escS) && escS.Length == 3 * |s| + 1
    ensures len == |s| + 2 * CountReserved(s) && len < escS.Length
    ensures escS[..len] == Escape(s) && IsCString(escS[..len])
    ensures forall k :: len <= k < escS.Length ==> escS[k] == '\0'
  {
    TablesWellFormed();
    escS := new char[3 * |s| + 1](_ => '\0');
    var c := 0;
    var j: nat := 0;
    while c < |s|
      invariant 0 <= c <= |s|
      invariant j <= 3 * c
      invariant escS[..j] == EscapeWith(PercentReplace, s[..c])
      invariant forall k :: j <= k < escS.Length ==> escS[k] == '\0'
    {
      EscapePrefixStep(s, c);
      j := EscapeOne(escS, j, s[c]);
      c := c + 1;
    }
    assert s[..c] == s;
    escS[j] := '\0';
    len := j;
    EscapeFacts(s);
  }

  /** One turn of the outer loop of url_escape (uparse.c:43-58): the
      piece of one input character is written at j, and the running index
      moves past it. */
  method EscapeOne(escS: array<char>, j: nat, ch: char) returns (next: nat)
    requires IsTable(PercentReplace)
    requires j + |EscapeCharWith(PercentReplace, ch)| <= escS.Length
    modifies escS
    ensures next == j + |EscapeCharWith(PercentReplace, ch)|
    ensures escS[..next] == old(escS[..j]) + EscapeCharWith(PercentReplace, ch)
    ensures escS[next..] == old(escS[next..])
  {
    var i := FindEscape(ch);
    PieceOf(ch, i);
    if i < EscapeCharsCount {
      next := CopyTriple(escS, j, PercentReplace[i]);
    } else {
      escS[j] := ch;
      next := j + 1;
    }
  }

  /** The scan of ESCAPE_CHARS for one input character (uparse.c:44-54):
      the index at which the loop breaks, or EscapeCharsCount when it runs
      to the end. */
  method FindEscape(ch: char) returns (i: nat)
    ensures i == IndexOf(ch)
  {
    i := 0;
    while i < EscapeCharsCount
      invariant 0 <= i <= EscapeCharsCount
      invariant forall k :: 0 <= k < i ==> EscapeChars[k] != ch
    {
      if EscapeChars[i] == ch {
        return;
      }
      i := i + 1;
    }
  }

  /** The innermost loop of url_escape (uparse.c:47-50): the three
      characters of a replacement triple are written at j, j + 1, j + 2. */
  method CopyTriple(escS: array<char>, j: nat, t: string) returns (next: nat)
    requires |t| == 3 && j + 3 <= escS.Length
    modifies escS
    ensures next == j + 3
    ensures escS[..next] == old(escS[..j]) + t
    ensures escS[next..] == old(escS[next..])
  {
    next := j;
    for k := 0 to 3
      invariant next == j + k
      invariant escS[..next] == old(escS[..j]) + t[..k]
      invariant escS[next..] == old(escS[next..])
    {
      escS[next] := t[k];
      next := next + 1;
    }
  }

  /** What the scan's index says about the piece of a character. */
  lemma PieceOf(ch: char, i: nat)
    requires i == IndexOf(ch)
    ensures IsTable(PercentReplace)
    ensures i < EscapeCharsCount ==> EscapeCharWith(PercentReplace, ch) == PercentReplace[i]
    ensures i >= EscapeCharsCount ==> EscapeCharWith(PercentReplace, ch) == [ch]
  {
    TablesWellFormed();
  }

  /** The length and the C-string property of the output. */
  lemma EscapeFacts(s: string)
    requires IsCString(s)
    ensures |Escape(s)| == |s| + 2 * CountReserved(s) && IsCString(Escape(s))
  {
    TablesAreTriples();
    EscapeLength(PercentReplace, s);
    EscapeOutputReserved(PercentReplace, s);
  }

  /** One more character of input adds its piece, and the output stays
      within three characters per input character. */
  lemma EscapePrefixStep(s: string, c: nat)
    requires c < |s|
    ensures IsTable(PercentReplace)
    ensures EscapeWith(PercentReplace, s[..c + 1]) ==
      EscapeWith(PercentReplace, s[..c]) + EscapeCharWith(PercentReplace, s[c])
    ensures |EscapeWith(PercentReplace, s[..c + 1])| <= 3 * (c + 1)
  {
    TablesWellFormed();
    assert s[..c + 1][..c] == s[..c];
    EscapeLength(PercentReplace, s[..c + 1]);
  }

  // ---------------------------------------------------------------------
  // Properties of the encoder.

  /** Escaping distributes over concatenation: the pass is left to right and
      each character is handled on its own. */
  lemma {:induction false} EscapeAppend(table: seq<string>, a: string, b: string)
    requires IsTable(table)
    ensures EscapeWith(table, a + b) == EscapeWith(table, a) + EscapeWith(table, b)
    decreases |b|
  {
    if b == [] {
      assert a + b == a;
    } else {
      var b' := b[..|b| - 1];
      assert (a + b)[..|a + b| - 1] == a + b';
      assert (a + b)[|a + b| - 1] == b[|b| - 1];
      EscapeAppend(table, a, b');
      var x, y, p := EscapeWith(table, a), EscapeWith(table, b'), EscapeCharWith(table, b[|b| - 1]);
      assert EscapeWith(table, b) == y + p;
      assert EscapeWith(table, a + b) == (x + y) + p;
      assert (x + y) + p == x + (y + p);
    }
  }

  /** The output is the piece of the first character followed by the
      escaping of the rest. */
  lemma EscapeCons(table: seq<string>, c: char, rest: string)
    requires IsTable(table)
    ensures EscapeWith(table, [c] + rest) == EscapeCharWith(table, c) + EscapeWith(table, rest)
  {
    EscapeAppend(table, [c], rest);
    EscapeSingle(table, c);
  }

  /** A one-character string escapes to that character's piece. */
  lemma EscapeSingle(table: seq<string>, c: char)
    requires IsTable(table)
    ensures EscapeWith(table, [c]) == EscapeCharWith(table, c)
  {
    var s := [c];
    assert s[..|s| - 1] == [];
  }

  /** A reserved character on its own becomes exactly its table entry. */
  lemma EscapeOfReserved(i: nat)
    requires i < EscapeCharsCount
    ensures Escape([EscapeChars[i]]) == PercentReplace[i]
  {
    TablesWellFormed();
    TableIndexOf(i);
    EscapeSingle(PercentReplace, EscapeChars[i]);
  }

  /** Output length is the input length plus two per reserved character, so
      it never exceeds 3 * |s| and the NUL at index len fits the buffer. */
  lemma {:induction false} EscapeLength(table: seq<string>, s: string)
    requires IsTable(table)
    ensures |EscapeWith(table, s)| == |s| + 2 * CountReserved(s)
    ensures CountReserved(s) <= |s|
    ensures |EscapeWith(table, s)| <= 3 * |s|
  {
    if s != [] {
      EscapeLength(table, s[..|s| - 1]);
    }
  }

  /** Every piece has one to three characters, so the output is at least as
      long as the input and at most three times as long. */
  lemma {:induction false} EscapeBounds(table: seq<string>, s: string)
    requires IsTable(table)
    ensures |s| <= |EscapeWith(table, s)| <= 3 * |s|
  {
    if s != [] {
      EscapeBounds(table, s[..|s| - 1]);
    }
  }

  /** No reserved character in `s` is the same as a count of zero. */
  lemma {:induction false} CountReservedZero(s: string)
    ensures CountReserved(s) == 0 <==> forall i :: 0 <= i < |s| ==> !IsReserved(s[i])
  {
    if s != [] {
      var p := s[..|s| - 1];
      CountReservedZero(p);
      if CountReserved(s) == 0 {
        forall i | 0 <= i < |s| ensures !IsReserved(s[i]) {
          if i < |s| - 1 { assert s[i] == p[i]; }
        }
      } else if IsReserved(s[|s| - 1]) {
      } else {
        var i :| 0 <= i < |p| && IsReserved(p[i]);
        assert s[i] == p[i];
      }
    }
  }

  /** The encoder changes a string exactly when the string holds a reserved
      character. */
  lemma {:induction false} EscapeIdentityIff(table: seq<string>, s: string)
    requires IsTable(table)
    ensures EscapeWith(table, s) == s <==> forall i :: 0 <= i < |s| ==> !IsReserved(s[i])
  {
    EscapeLength(table, s);
    CountReservedZero(s);
    if forall i :: 0 <= i < |s| ==> !IsReserved(s[i]) {
      EscapeIdentity(table, s);
    }
  }

  lemma {:induction false} EscapeIdentity(table: seq<string>, s: string)
    requires IsTable(table)
    requires forall i :: 0 <= i < |s| ==> !IsReserved(s[i])
    ensures EscapeWith(table, s) == s
  {
    if s != [] {
      var p := s[..|s| - 1];
      assert forall i :: 0 <= i < |p| ==> p[i] == s[i];
      EscapeIdentity(table, p);
      assert s == p + [s[|s| - 1]];
    }
  }

  /** Every character of the output is '%', a hexadecimal digit, or an
      unreserved character copied from the input. */
  lemma {:induction false} EscapeOutputChars(table: seq<string>, s: string)
    requires IsTable(table) && IsTripleTable(table)
    ensures forall k :: 0 <= k < |EscapeWith(table, s)| ==> OutputChar(EscapeWith(table, s)[k], s)
  {
    if s != [] {
      var p, c := s[..|s| - 1], s[|s| - 1];
      EscapeOutputChars(table, p);
      var out, head, piece := EscapeWith(table, s), EscapeWith(table, p), EscapeCharWith(table, c);
      assert out == head + piece;
      forall k | 0 <= k < |out| ensures OutputChar(out[k], s) {
        if k < |head| {
          assert out[k] == head[k] && OutputChar(head[k], p);
          if out[k] in p {
            var m :| 0 <= m < |p| && p[m] == out[k];
            assert s[m] == p[m];
          }
        } else {
          assert out[k] == piece[k - |head|];
          if !IsReserved(c) {
            assert out[k] == c == s[|s| - 1];
          }
        }
      }
    }
  }

  predicate OutputChar(o: char, s: string) {
    o == '%' || IsHexDigit(o) || (o in s && !IsReserved(o))
  }

  /** The only reserved character the output can hold is the '%' that
      starts a triple, and a C string escapes to a C string. */
  lemma EscapeOutputReserved(table: seq<string>, s: string)
    requires IsTable(table) && IsTripleTable(table)
    ensures forall k :: 0 <= k < |EscapeWith(table, s)| && IsReserved(EscapeWith(table, s)[k]) ==>
      EscapeWith(table, s)[k] == '%'
    ensures IsCString(s) ==> IsCString(EscapeWith(table, s))
  {
    EscapeOutputChars(table, s);
    var out := EscapeWith(table, s);
    forall k | 0 <= k < |out| && IsHexDigit(out[k]) ensures !IsReserved(out[k]) && out[k] != '\0' {
      HexNotReserved(out[k]);
    }
  }

  /** url_escape is not idempotent: '%' is itself reserved, so escaping an
      escaped string escapes its '%' again. */
  lemma EscapeNotIdempotent()
    ensures Escape("%") == "%25"
    ensures Escape(Escape("%")) == "%2525"
    ensures Escape(Escape("%")) != Escape("%")
  {
    TablesWellFormed();
    EscapeSingle(PercentReplace, '%');
    var digits := "25";
    EscapeIdentity(PercentReplace, digits);
    assert "%25" == ['%'] + digits;
    EscapeCons(PercentReplace, '%', digits);
    assert "%2525" == "%25" + digits;
  }

  /** The pieces of '!' and '#'. */
  lemma EscapeBangHash()
    ensures IsTable(PercentReplace)
    ensures EscapeCharWith(PercentReplace, '!') == "%21"
    ensures EscapeCharWith(PercentReplace, '#') == "%23"
  {
    TablesWellFormed();
  }

  /** How the example strings and their escapings split into the parts
      the example lemmas below put together. */
  lemma ExampleSplits()
    ensures "##" == ['#'] + "#" && "%23%23" == "%23" + "%23"
    ensures "##there" == "##" + "there" && "%23%23there" == "%23%23" + "there"
    ensures "!##there" == ['!'] + "##there" && "%21%23%23there" == "%21" + "%23%23there"
    ensures "hello!##there" == "hello" + "!##there"
    ensures "hello%21%23%23there" == "hello" + "%21%23%23there"
    ensures "!!" == ['!'] + "!" && "%21%21" == "%21" + "%21"
    ensures "!!!" == ['!'] + "!!" && "%21%21%21" == "%21" + "%21%21"
    ensures "!!!##" == "!!!" + "##" && "%21%21%21%23%23" == "%21%21%21" + "%23%23"
  {
  }

  /** Two '#' characters. */
  lemma EscapeTwoHashes()
    ensures Escape("##") == "%23%23"
  {
    EscapeBangHash();
    ExampleSplits();
    EscapeSingle(PercentReplace, '#');
    EscapeCons(PercentReplace, '#', "#");
  }

  /** Two '#' characters and a word. */
  lemma EscapeExampleHashesThere()
    ensures Escape("##there") == "%23%23there"
  {
    TablesWellFormed();
    ExampleSplits();
    EscapeTwoHashes();
    EscapeIdentity(PercentReplace, "there");
    EscapeAppend(PercentReplace, "##", "there");
  }

  /** The part of the first test string from the '!' on. */
  lemma EscapeExampleTail()
    ensures Escape("!##there") == "%21%23%23there"
  {
    EscapeBangHash();
    ExampleSplits();
    EscapeExampleHashesThere();
    EscapeCons(PercentReplace, '!', "##there");
  }

  /** The first string the test driver escapes (test.c:60). */
  lemma EscapeExampleHello()
    ensures Escape("hello!##there") == "hello%21%23%23there"
  {
    TablesWellFormed();
    ExampleSplits();
    EscapeIdentity(PercentReplace, "hello");
    EscapeExampleTail();
    EscapeAppend(PercentReplace, "hello", "!##there");
  }

  /** Three '!' characters. */
  lemma EscapeThreeBangs()
    ensures Escape("!!!") == "%21%21%21"
  {
    EscapeBangHash();
    ExampleSplits();
    EscapeSingle(PercentReplace, '!');
    EscapeCons(PercentReplace, '!', "!");
    EscapeCons(PercentReplace, '!', "!!");
  }

  /** The second string the test driver escapes (test.c:61). */
  lemma EscapeExampleBangs()
    ensures Escape("!!!##") == "%21%21%21%23%23"
  {
    TablesWellFormed();
    ExampleSplits();
    EscapeThreeBangs();
    EscapeTwoHashes();
    EscapeAppend(PercentReplace, "!!!", "##");
  }

  // ---------------------------------------------------------------------
  // Percent-encoding as section 2.1 of RFC 3986 defines it, and a decoder,
  // used as an independent reference for the table.

  function HexDigit(n: nat): (d: char)
    requires n < 16
  {
    "0123456789ABCDEF"[n]
  }

  predicate IsHexDigit(c: char) {
    ('0' <= c <= '9') || ('A' <= c <= 'F') || ('a' <= c <= 'f')
  }

  function HexValue(c: char): (n: nat)
    requires IsHexDigit(c)
    ensures n < 16
  {
    if '0' <= c <= '9' then c as int - '0' as int
    else if 'A' <= c <= 'F' then c as int - 'A' as int + 10
    else c as int - 'a' as int + 10
  }

  /** The percent-encoded octet for a character below 256: '%' and the two
      upper-case hexadecimal digits of its code. */
  function PercentEncoded(c: char): (t: string)
    requires c as int < 256
    ensures |t| == 3
  {
    ['%', HexDigit(c as int / 16), HexDigit(c as int % 16)]
  }

  /** Percent-decoding: each "%XY" with two hex digits becomes the character
      with code 0xXY; every other character is kept. */
  function Unescape(t: string): (r: string)
    ensures |r| <= |t|
    decreases |t|
  {
    if t == [] then []
    else if |t| >= 3 && t[0] == '%' && IsHexDigit(t[1]) && IsHexDigit(t[2]) then
      [(16 * HexValue(t[1]) + HexValue(t[2])) as char] + Unescape(t[3..])
    else [t[0]] + Unescape(t[1..])
  }

  lemma HexDigitValue(n: nat)
    requires n < 16
    ensures IsHexDigit(HexDigit(n)) && HexValue(HexDigit(n)) == n
  {
  }

  /** Decoding a percent-encoded character gives the character back. */
  lemma UnescapeEncoded(c: char, rest: string)
    requires c as int < 256
    ensures Unescape(PercentEncoded(c) + rest) == [c] + Unescape(rest)
  {
    var t := PercentEncoded(c) + rest;
    HexDigitValue(c as int / 16);
    HexDigitValue(c as int % 16);
    assert t[3..] == rest;
  }

  // ---------------------------------------------------------------------
  // The crossed table entries.

  /** As written, ']' and '[' are not escaped to their own percent-encoding,
      and decoding the escaped string swaps the two brackets. */
  lemma AsWrittenSwapsBrackets()
    ensures Escape("]") == "%5B" && Escape("[") == "%5D"
    ensures PercentEncoded(']') == "%5D" && PercentEncoded('[') == "%5B"
    ensures Unescape(Escape("[")) == "]" && Unescape(Escape("]")) == "["
  {
    EscapeOfReserved(17);
    EscapeOfReserved(18);
    assert "%5D"[3..] == [] && "%5B"[3..] == [];
  }

  /** Every corrected entry is the percent-encoding of its character. */
  lemma CorrectedTableIsPercentEncoding()
    ensures IsTable(CorrectedReplace)
    ensures forall i :: 0 <= i < EscapeCharsCount ==>
      EscapeChars[i] as int < 256 && CorrectedReplace[i] == PercentEncoded(EscapeChars[i])
  {
  }

  /** With the corrected table, decoding undoes escaping for every string. */
  lemma {:induction false} CorrectedRoundTrip(s: string)
    ensures Unescape(EscapeCorrected(s)) == s
    decreases |s|
  {
    TablesWellFormed();
    if s != [] {
      var c, rest := s[0], s[1..];
      assert s == [c] + rest;
      EscapeCons(CorrectedReplace, c, rest);
      CorrectedRoundTrip(rest);
      if IsReserved(c) {
        CorrectedTableIsPercentEncoding();
        UnescapeEncoded(c, EscapeWith(CorrectedReplace, rest));
      } else {
        assert c != '%';
        assert ([c] + EscapeWith(CorrectedReplace, rest))[1..] == EscapeWith(CorrectedReplace, rest);
      }
    }
  }

  // ---------------------------------------------------------------------
  // The two tables differ in the bracket entries and nowhere else.

  predicate IsBracket(c: char) {
    c == '[' || c == ']'
  }

  /** One character has the same piece under both tables exactly when it is
      not a bracket. */
  lemma PieceAgreesIff(c: char)
    ensures IsTable(PercentReplace) && IsTable(CorrectedReplace)
    ensures EscapeCharWith(PercentReplace, c) == EscapeCharWith(CorrectedReplace, c) <==> !IsBracket(c)
  {
    TablesWellFormed();
    var i := IndexOf(c);
    if i < 17 {
      assert PercentReplace[..17] == CorrectedReplace[..17];
      assert PercentReplace[i] == PercentReplace[..17][i];
      assert CorrectedReplace[i] == CorrectedReplace[..17][i];
    }
  }

  /** Two concatenations with parts of equal length are equal exactly when
      the parts are. */
  lemma ConcatEqIff(a: string, b: string, a': string, b': string)
    requires |a| == |a'|
    ensures a + b == a' + b' <==> a == a' && b == b'
  {
    if a + b == a' + b' {
      assert a == (a + b)[..|a|] && a' == (a' + b')[..|a|];
      assert b == (a + b)[|a|..] && b' == (a' + b')[|a|..];
    }
  }

  /** The encoder as written and the corrected one agree on a string exactly
      when the string holds no '[' and no ']'. */
  lemma {:induction false} EscapeAgreesIff(s: string)
    ensures Escape(s) == EscapeCorrected(s) <==> forall i :: 0 <= i < |s| ==> !IsBracket(s[i])
  {
    TablesWellFormed();
    if s != [] {
      var p, c := s[..|s| - 1], s[|s| - 1];
      EscapeAgreesIff(p);
      PieceAgreesIff(c);
      EscapeLength(PercentReplace, p);
      EscapeLength(CorrectedReplace, p);
      ConcatEqIff(EscapeWith(PercentReplace, p), EscapeCharWith(PercentReplace, c),
                  EscapeWith(CorrectedReplace, p), EscapeCharWith(CorrectedReplace, c));
      assert forall i :: 0 <= i < |p| ==> p[i] == s[i];
    }
  }
}
