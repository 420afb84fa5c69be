/** The scheme extractor `get_scheme` (uparse.c:99-178): 1 to 16 ASCII
    letters, then ':', then one or more '/'. The caller's cursor moves past
    the last slash on success and stays where it was on every failure. */
module Scheme {
  import opened Wrappers
  import opened Uparse

  /** SCHEME_DELIM_PREFIX and SCHEME_SLASH (uparse.c:5-6). */
  const SchemeDelimPrefix: char := ':'
  const SchemeSlash: char := '/'

  /** max_scheme_len (uparse.c:118). */
  const MaxSchemeLen: nat := 16

  /** Why get_scheme returned NULL: one value per diagnostic it prints. */
  datatype SchemeError =
    | InvalidChar(c: char)  // a character that is neither a letter nor ':'
    | TooLong               // a 17th letter
    | NoDelimiter           // the string ended before any ':'
    | NoScheme              // ':' with no letter before it
    | NoSlash               // no '/' right after ':'

  /** The number of ASCII letters that `t` starts with. */
  function LetterRun(t: string): (n: nat)
    ensures n <= |t|
    ensures forall k :: 0 <= k < n ==> IsAlpha(t[k])
    ensures n < |t| ==> !IsAlpha(t[n])
  {
    if t == [] || !IsAlpha(t[0]) then 0 else 1 + LetterRun(t[1..])
  }

  /** The number of '/' characters that `t` starts with. */
  function SlashRun(t: string): (n: nat)
    ensures n <= |t|
    ensures forall k :: 0 <= k < n ==> t[k] == SchemeSlash
    ensures n < |t| ==> t[n] != SchemeSlash
  {
    if t == [] || t[0] != SchemeSlash then 0 else 1 + SlashRun(t[1..])
  }

  /** What get_scheme decides for the string `t` that its cursor points at:
      the scheme and the number of characters consumed, or the first check
      that fails. Each character is tested for ':' first, then for being a
      letter, then against the length limit, so a 17th letter is TooLong
      while a non-letter in 17th place is InvalidChar. */
  function SchemeSpec(t: string): (r: Result<(string, nat), SchemeError>)
    ensures r.Success? ==>
      && IsSchemeName(r.value.0) && |r.value.0| + 2 <= r.value.1 <= |t|
      && t[..|r.value.0|] == r.value.0
  {
    var n := LetterRun(t);
    if n > MaxSchemeLen then Failure(TooLong)
    else if n == |t| then Failure(NoDelimiter)
    else if t[n] != SchemeDelimPrefix then Failure(InvalidChar(t[n]))
    else if n == 0 then Failure(NoScheme)
    else
      var k := SlashRun(t[n + 1..]);
      if k == 0 then Failure(NoSlash) else Success((t[..n], n + 1 + k))
  }

  /** A scheme name as get_scheme accepts it. */
  predicate IsSchemeName(l: string) {
    1 <= |l| <= MaxSchemeLen && forall k :: 0 <= k < |l| ==> IsAlpha(l[k])
  }

  function Slashes(k: nat): (r: string)
    ensures |r| == k && forall i :: 0 <= i < k ==> r[i] == SchemeSlash
  {
    if k == 0 then [] else [SchemeSlash] + Slashes(k - 1)
  }

  /** LetterRun is the one count that the letters before it and the
      non-letter at it pin down. */
  lemma LetterRunIs(t: string, j: nat)
    requires j <= |t| && forall k :: 0 <= k < j ==> IsAlpha(t[k])
    requires j < |t| ==> !IsAlpha(t[j])
    ensures LetterRun(t) == j
  {
    var n := LetterRun(t);
  }

  lemma LetterRunExceeds(t: string, j: nat)
    requires j < |t| && forall k :: 0 <= k <= j ==> IsAlpha(t[k])
    ensures LetterRun(t) > j
  {
    var n := LetterRun(t);
  }

  lemma SlashRunIs(u: string, j: nat)
    requires j <= |u| && forall k :: 0 <= k < j ==> u[k] == SchemeSlash
    requires j < |u| ==> u[j] != SchemeSlash
    ensures SlashRun(u) == j
  {
    var n := SlashRun(u);
  }

  /** SchemeSpec when the letters end at j, within the limit. */
  lemma SchemeSpecStops(t: string, j: nat)
    requires j <= MaxSchemeLen && j <= |t| && forall k :: 0 <= k < j ==> IsAlpha(t[k])
    requires j < |t| ==> !IsAlpha(t[j])
    ensures j == |t| ==> SchemeSpec(t) == Failure(NoDelimiter)
    ensures j < |t| && t[j] != SchemeDelimPrefix ==> SchemeSpec(t) == Failure(InvalidChar(t[j]))
    ensures j < |t| && t[j] == SchemeDelimPrefix && j == 0 ==> SchemeSpec(t) == Failure(NoScheme)
  {
    LetterRunIs(t, j);
  }

  /** SchemeSpec when a 17th letter is read. */
  lemma SchemeSpecTooLong(t: string, j: nat)
    requires j == MaxSchemeLen && j < |t| && forall k :: 0 <= k <= j ==> IsAlpha(t[k])
    ensures SchemeSpec(t) == Failure(TooLong)
  {
    LetterRunExceeds(t, j);
  }

  /** SchemeSpec once the letters and the ':' have been read and the slashes
      end at k. */
  lemma SchemeSpecAfterPrefix(t: string, j: nat, k: nat)
    requires 1 <= j <= MaxSchemeLen && j < |t| && forall i :: 0 <= i < j ==> IsAlpha(t[i])
    requires t[j] == SchemeDelimPrefix
    requires j + 1 + k <= |t| && forall i :: j + 1 <= i < j + 1 + k ==> t[i] == SchemeSlash
    requires j + 1 + k < |t| ==> t[j + 1 + k] != SchemeSlash
    ensures SchemeSpec(t) == if k == 0 then Failure(NoSlash) else Success((t[..j], j + 1 + k))
  {
    LetterRunIs(t, j);
    SlashRunIs(t[j + 1..], k);
  }

  // ---------------------------------------------------------------------
  // get_scheme as written.

  /** get_scheme (uparse.c:105-178). `s` is the working copy of the input,
      `cursor` the position `*s` points at; `next` is where `*s` points
      afterwards. The result is the copied scheme, or the reason for the
      NULL return; the error out-parameter is set to UPARSE_ERROR on entry
      and never reset. */
  method GetScheme(s: string, cursor: nat) returns (r: Result<string, SchemeError>, next: nat, errOut: nat)
    requires IsCString(s) && cursor <= |s|
    ensures errOut == UparseError
    ensures cursor <= next <= |s|
    ensures r.Success? ==> next > cursor && SchemeSpec(s[cursor..]) == Success((r.value, next - cursor))
    ensures r.Failure? ==> next == cursor && SchemeSpec(s[cursor..]) == Failure(r.error)
  {
    errOut := UparseError;
    ghost var t := s[cursor..];
    var c := cursor;
    var scheme := new char[MaxSchemeLen + 1](_ => '\0');
    var j := 0;
    var seenPrefix := false;
    while c < |s|
      invariant cursor <= c <= |s| && j == c - cursor <= MaxSchemeLen
      invariant forall k :: 0 <= k < j ==> IsAlpha(t[k])
      invariant scheme[..j] == t[..j]
      invariant !seenPrefix
    {
      if s[c] == SchemeDelimPrefix {
        seenPrefix := true;
        c := c + 1;
        break;
      } else if !IsAlpha(s[c]) {
        assert t[j] == s[c];
        SchemeSpecStops(t, j);
        r, next := Failure(InvalidChar(s[c])), cursor;
        return;
      } else if j == MaxSchemeLen {
        assert t[j] == s[c];
        SchemeSpecTooLong(t, j);
        r, next := Failure(TooLong), cursor;
        return;
      } else {
        scheme[j] := s[c];
      }
      c := c + 1;
      j := j + 1;
    }
    if !seenPrefix {
      SchemeSpecStops(t, j);
      r, next := Failure(NoDelimiter), cursor;
      return;
    }
    assert t[j] == SchemeDelimPrefix;
    SchemeSpecStops(t, j);
    if j == 0 {
      r, next := Failure(NoScheme), cursor;
      return;
    }

    ghost var c0 := c;
    var seenSlash := false;
    while c < |s|
      invariant c0 <= c <= |s|
      invariant forall k :: c0 <= k < c ==> s[k] == SchemeSlash
      invariant seenSlash <==> c > c0
    {
      if s[c] == SchemeSlash {
        seenSlash := true;
        c := c + 1;
      } else {
        break;
      }
    }
    SchemeSpecAfterPrefix(t, j, c - c0);
    if !seenSlash {
      r, next := Failure(NoSlash), cursor;
      return;
    }
    next := c;
    scheme[j] := '\0';
    r := Success(scheme[..j]);
  }

  // ---------------------------------------------------------------------
  // The accepted language, stated as a grammar.

  lemma {:induction false} LetterRunOfLetters(l: string, rest: string)
    requires forall k :: 0 <= k < |l| ==> IsAlpha(l[k])
    ensures LetterRun(l + rest) >= |l|
    ensures rest != [] && !IsAlpha(rest[0]) ==> LetterRun(l + rest) == |l|
    decreases |l|
  {
    if l != [] {
      assert (l + rest)[1..] == l[1..] + rest;
      LetterRunOfLetters(l[1..], rest);
    } else {
      assert l + rest == rest;
    }
  }

  lemma {:induction false} SlashRunOfSlashes(k: nat, rest: string)
    requires rest == [] || rest[0] != SchemeSlash
    ensures SlashRun(Slashes(k) + rest) == k
  {
    if k > 0 {
      assert (Slashes(k) + rest)[1..] == Slashes(k - 1) + rest;
      SlashRunOfSlashes(k - 1, rest);
    } else {
      assert Slashes(k) + rest == rest;
    }
  }

  /** Completeness: a scheme name, ':', one or more slashes and anything not
      starting with '/' is accepted, with exactly that name, and the cursor
      lands on the first character after the slashes. */
  lemma SchemeAccepts(l: string, k: nat, rest: string)
    requires IsSchemeName(l) && k >= 1
    requires rest == [] || rest[0] != SchemeSlash
    ensures SchemeSpec(l + [SchemeDelimPrefix] + Slashes(k) + rest) == Success((l, |l| + 1 + k))
  {
    var u := Slashes(k) + rest;
    var d := [SchemeDelimPrefix] + u;
    var t := l + d;
    assert l + [SchemeDelimPrefix] + Slashes(k) + rest == t;
    assert d[0] == SchemeDelimPrefix && !IsAlpha(d[0]);
    LetterRunOfLetters(l, d);
    assert t[|l|] == SchemeDelimPrefix;
    assert t[|l| + 1..] == u;
    SlashRunOfSlashes(k, rest);
    assert t[..|l|] == l;
    SchemeSpecAccepts(t, l, k);
  }

  /** The one path through SchemeSpec that succeeds. */
  lemma SchemeSpecAccepts(t: string, l: string, k: nat)
    requires LetterRun(t) == |l| && 1 <= |l| <= MaxSchemeLen && |l| < |t| && t[..|l|] == l
    requires t[|l|] == SchemeDelimPrefix && SlashRun(t[|l| + 1..]) == k && k >= 1
    ensures SchemeSpec(t) == Success((l, |l| + 1 + k))
  {
    assert SchemeSpec(t) == Success((t[..|l|], |l| + 1 + k));
  }

  /** Soundness: whatever is accepted has that shape, so every input the
      grammar does not describe is refused. */
  lemma SchemeSound(t: string)
    requires SchemeSpec(t).Success?
    ensures var (l, n) := SchemeSpec(t).value;
      IsSchemeName(l) && |l| + 2 <= n <= |t| &&
      t[..n] == l + [SchemeDelimPrefix] + Slashes(n - |l| - 1) &&
      (n == |t| || t[n] != SchemeSlash)
  {
    var (l, n) := SchemeSpec(t).value;
    var m := LetterRun(t);
    var u := t[m + 1..];
    var k := SlashRun(u);
    assert l == t[..m] && n == m + 1 + k;
    assert t[..n] == l + [SchemeDelimPrefix] + Slashes(k);
  }

  /** Every string starting with 17 letters fails on the 17th, whatever follows. */
  lemma SchemeTooLong(l: string, rest: string)
    requires |l| == MaxSchemeLen + 1 && forall k :: 0 <= k < |l| ==> IsAlpha(l[k])
    ensures SchemeSpec(l + rest) == Failure(TooLong)
  {
    LetterRunOfLetters(l, rest);
  }

  /** 16 letters and a non-letter that is not ':' fail as an invalid
      character, not as an overflow. */
  lemma SchemeLongInvalid(l: string, c: char, rest: string)
    requires |l| == MaxSchemeLen && forall k :: 0 <= k < |l| ==> IsAlpha(l[k])
    requires !IsAlpha(c) && c != SchemeDelimPrefix
    ensures SchemeSpec(l + [c] + rest) == Failure(InvalidChar(c))
  {
    assert l + [c] + rest == l + ([c] + rest);
    LetterRunOfLetters(l, [c] + rest);
  }

  /** A letter run of allowed length followed by ':' and no '/' is refused
      for the missing slash. */
  lemma SchemeNeedsSlash(l: string, rest: string)
    requires IsSchemeName(l)
    requires rest == [] || rest[0] != SchemeSlash
    ensures SchemeSpec(l + [SchemeDelimPrefix] + rest) == Failure(NoSlash)
  {
    var t := l + [SchemeDelimPrefix] + rest;
    assert t == l + ([SchemeDelimPrefix] + rest);
    LetterRunOfLetters(l, [SchemeDelimPrefix] + rest);
    assert t[|l| + 1..] == rest;
  }

  /** A string of at most 16 letters and no ':' is refused for the missing
      delimiter. */
  lemma SchemeNeedsDelimiter(l: string)
    requires |l| <= MaxSchemeLen && forall k :: 0 <= k < |l| ==> IsAlpha(l[k])
    ensures SchemeSpec(l) == Failure(NoDelimiter)
  {
    LetterRunOfLetters(l, []);
    assert l + [] == l;
  }

  /** Accepted inputs of the test driver (test.c:28,34). */
  lemma SchemeExamplesAccepted()
    ensures SchemeSpec("http://foo.com") == Success(("http", 7))
    ensures SchemeSpec("sftp:/|") == Success(("sftp", 6))
  {
    SchemeExampleSplits();
    SchemeAccepts("http", 2, "foo.com");
    SchemeAccepts("sftp", 1, "|");
  }

  /** The accepted test inputs, split into name, ':', slashes and rest. */
  lemma SchemeExampleSplits()
    ensures IsSchemeName("http") && IsSchemeName("sftp")
    ensures "http://foo.com" == "http" + [SchemeDelimPrefix] + Slashes(2) + "foo.com"
    ensures "sftp:/|" == "sftp" + [SchemeDelimPrefix] + Slashes(1) + "|"
  {
    assert Slashes(2) == "//" && Slashes(1) == "/";
  }

  /** Refused inputs of the test driver (test.c:33,37,44). */
  lemma SchemeExamplesRefused()
    ensures SchemeSpec("http//") == Failure(InvalidChar('/'))
    ensures SchemeSpec("://my.domain") == Failure(NoScheme)
    ensures SchemeSpec(" http://foo.com") == Failure(InvalidChar(' '))
  {
    SchemeSpecStops("http//", 4);
    SchemeSpecStops("://my.domain", 0);
    SchemeSpecStops(" http://foo.com", 0);
  }
}
