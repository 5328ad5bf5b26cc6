/** String operations the chip input applies to typed text: the
    allowed-character test behind `INVALID_CHARS`, removal of disallowed
    characters (`replace`), ASCII lower-casing (`toLowerCase`), substring
    search (`includes`) and whitespace trimming (`trim`). */
module ChipText {

  /** A character the input accepts: one not matched by /[^a-zA-Z0-9 ]/. */
  predicate IsAllowed(c: char) {
    ('a' <= c <= 'z') || ('A' <= c <= 'Z') || ('0' <= c <= '9') || c == ' '
  }

  /** No character of `s` is disallowed; `INVALID_CHARS.test(s)` is the negation. */
  predicate AllAllowed(s: string) {
    forall i :: 0 <= i < |s| ==> IsAllowed(s[i])
  }

  /** `s.replace(INVALID_CHARS, "")`: every disallowed character removed,
      the others kept in their order. */
  function Sanitize(s: string): (r: string)
    ensures AllAllowed(r)
    ensures |r| <= |s|
    ensures forall c :: c in r <==> c in s && IsAllowed(c)
    ensures r == s <==> AllAllowed(s)
    ensures !AllAllowed(s) ==> |r| < |s|
  {
    if s == [] then []
    else if IsAllowed(s[0]) then [s[0]] + Sanitize(s[1..])
    else Sanitize(s[1..])
  }

  /** Sanitising works character by character, so it keeps the relative
      order of what it keeps: it distributes over concatenation. */
  lemma {:induction false} SanitizeAppend(a: string, b: string)
    ensures Sanitize(a + b) == Sanitize(a) + Sanitize(b)
  {
    if a == [] {
      assert a + b == b;
    } else {
      var ab := a + b;
      assert ab[0] == a[0] && ab[1..] == a[1..] + b;
      SanitizeAppend(a[1..], b);
      if IsAllowed(a[0]) {
        assert Sanitize(ab) == [a[0]] + Sanitize(ab[1..]);
      } else {
        assert Sanitize(ab) == Sanitize(ab[1..]);
      }
    }
  }

  /** ASCII lower-casing of one character. */
  function LowerChar(c: char): char {
    if 'A' <= c <= 'Z' then (c as int + 32) as char else c
  }

  /** `s.toLowerCase()` restricted to ASCII letters: no upper-case ASCII
      letter is left, and every other character stays where it was. */
  function Lower(s: string): (r: string)
    ensures |r| == |s|
    ensures forall i :: 0 <= i < |s| ==> !('A' <= r[i] <= 'Z')
    ensures forall i :: 0 <= i < |s| && 'A' <= s[i] <= 'Z' ==> r[i] as int == s[i] as int + 32
    ensures forall i :: 0 <= i < |s| && !('A' <= s[i] <= 'Z') ==> r[i] == s[i]
  {
    seq(|s|, i requires 0 <= i < |s| => LowerChar(s[i]))
  }

  /** Two characters are the same letter up to ASCII case, or equal. */
  predicate EqualIgnoringCase(c: char, d: char) {
    c == d
    || ('A' <= c <= 'Z' && d as int == c as int + 32)
    || ('A' <= d <= 'Z' && c as int == d as int + 32)
  }

  /** Lower-casing identifies exactly the texts that agree position by
      position up to ASCII case. */
  lemma LowerEqualIff(v: string, w: string)
    ensures Lower(v) == Lower(w) <==>
              |v| == |w| && forall i :: 0 <= i < |v| ==> EqualIgnoringCase(v[i], w[i])
  {
    if Lower(v) == Lower(w) {
      forall i | 0 <= i < |v| ensures EqualIgnoringCase(v[i], w[i]) {
        assert Lower(v)[i] == Lower(w)[i];
      }
    }
    if |v| == |w| && forall i :: 0 <= i < |v| ==> EqualIgnoringCase(v[i], w[i]) {
      forall i | 0 <= i < |v| ensures Lower(v)[i] == Lower(w)[i] {
        assert EqualIgnoringCase(v[i], w[i]);
      }
    }
  }

  /** A lower-case letter appears in the lower-cased text only where the
      original has that letter in either case. */
  lemma LowerLacks(s: string, c: char)
    requires 'a' <= c <= 'z' && c !in s && (c as int - 32) as char !in s
    ensures c !in Lower(s)
  {
    forall i | 0 <= i < |s| ensures Lower(s)[i] != c {
      assert s[i] != c && s[i] != (c as int - 32) as char;
    }
  }

  /** `needle` occurs in `hay` starting at position `i`. */
  ghost predicate OccursAt(hay: string, needle: string, i: int) {
    0 <= i && i + |needle| <= |hay| && hay[i..i + |needle|] == needle
  }

  /** Dropping the first character of `hay` shifts every later occurrence
      one position to the left. */
  lemma ShiftOccurrences(hay: string, needle: string)
    requires |hay| > 0
    ensures forall i :: OccursAt(hay, needle, i) && i != 0 ==> OccursAt(hay[1..], needle, i - 1)
    ensures forall j :: OccursAt(hay[1..], needle, j) ==> OccursAt(hay, needle, j + 1)
  {
    forall i | OccursAt(hay, needle, i) && i != 0
      ensures OccursAt(hay[1..], needle, i - 1)
    {
      assert hay[1..][i - 1..i - 1 + |needle|] == hay[i..i + |needle|];
    }
    forall j | OccursAt(hay[1..], needle, j)
      ensures OccursAt(hay, needle, j + 1)
    {
      assert hay[1..][j..j + |needle|] == hay[j + 1..j + 1 + |needle|];
    }
  }

  /** `hay.includes(needle)`: the needle occurs somewhere in the hay
      (the empty needle occurs everywhere). */
  function Contains(hay: string, needle: string): (r: bool)
    ensures r <==> exists i :: OccursAt(hay, needle, i)
    decreases |hay|
  {
    if |needle| > |hay| then false
    else if hay[..|needle|] == needle then
      assert OccursAt(hay, needle, 0);
      true
    else
      ShiftOccurrences(hay, needle);
      Contains(hay[1..], needle)
  }

  /** A needle with a character the hay lacks occurs nowhere in it. */
  lemma MissingCharNoMatch(hay: string, needle: string, c: char)
    requires c in needle && c !in hay
    ensures !Contains(hay, needle)
  {
  }

  /** The characters `String.prototype.trim` removes: the ECMAScript
      WhiteSpace (tab, vertical tab, form feed, zero-width no-break space
      and every Unicode space separator) and LineTerminator characters. */
  predicate IsWhitespace(c: char) {
    c in JsWhitespace
  }

  const JsWhitespace: set<char> :=
    {'\t', '\n', '\U{000B}', '\U{000C}', '\r', ' ', '\U{00A0}', '\U{1680}',
     '\U{2000}', '\U{2001}', '\U{2002}', '\U{2003}', '\U{2004}', '\U{2005}',
     '\U{2006}', '\U{2007}', '\U{2008}', '\U{2009}', '\U{200A}',
     '\U{2028}', '\U{2029}', '\U{202F}', '\U{205F}', '\U{3000}', '\U{FEFF}'}

  /** Leading whitespace removed: the result is a suffix of `s`, what was
      dropped is all whitespace, and the result does not start with any. */
  function TrimStart(s: string): (r: string)
    ensures |r| <= |s| && r == s[|s| - |r|..]
    ensures forall k :: 0 <= k < |s| - |r| ==> IsWhitespace(s[k])
    ensures r != [] ==> !IsWhitespace(r[0])
  {
    if s != [] && IsWhitespace(s[0]) then
      var r := TrimStart(s[1..]);
      assert forall k :: 0 <= k < |s| - |r| ==> IsWhitespace(s[k]) by {
        forall k | 1 <= k < |s| - |r| ensures IsWhitespace(s[k]) {
          assert s[k] == s[1..][k - 1];
        }
      }
      SuffixOfTail(s, r);
      r
    else
      assert s[|s| - |s|..] == s;
      s
  }

  /** A suffix of the tail of `s` is a suffix of `s`. */
  lemma SuffixOfTail<T>(s: seq<T>, r: seq<T>)
    requires |s| > 0 && |r| <= |s| - 1 && r == s[1..][|s| - 1 - |r|..]
    ensures r == s[|s| - |r|..]
  {
  }

  /** Trailing whitespace removed: the result is a prefix of `s`, what was
      dropped is all whitespace, and the result does not end with any. */
  function TrimEnd(s: string): (r: string)
    ensures |r| <= |s| && r == s[..|r|]
    ensures forall k :: |r| <= k < |s| ==> IsWhitespace(s[k])
    ensures r != [] ==> !IsWhitespace(r[|r| - 1])
  {
    if s != [] && IsWhitespace(s[|s| - 1]) then TrimEnd(s[..|s| - 1]) else s
  }

  /** `s.trim()`: whitespace removed at both ends. */
  function Trim(s: string): (r: string)
    ensures |r| <= |s|
    ensures r != [] ==> !IsWhitespace(r[0]) && !IsWhitespace(r[|r| - 1])
    ensures forall k :: |s| - |TrimStart(s)| + |r| <= k < |s| ==> IsWhitespace(s[k])
  {
    var t := TrimStart(s);
    var r := TrimEnd(t);
    assert r != [] ==> r[0] == t[0];
    forall k | |s| - |t| + |r| <= k < |s| ensures IsWhitespace(s[k]) {
      assert s[k] == t[k - (|s| - |t|)];
    }
    r
  }

  /** Trimming leaves the piece of `s` that starts after the leading
      whitespace (TrimStart and TrimEnd say that only whitespace lies
      around it). */
  lemma TrimIsPiece(s: string)
    ensures OccursAt(s, Trim(s), |s| - |TrimStart(s)|)
  {
    PrefixOfSuffix(s, TrimStart(s), Trim(s));
  }

  /** A prefix of a suffix of `s` occurs in `s` where the suffix starts. */
  lemma PrefixOfSuffix(s: string, t: string, r: string)
    requires |t| <= |s| && t == s[|s| - |t|..]
    requires |r| <= |t| && r == t[..|r|]
    ensures OccursAt(s, r, |s| - |t|)
  {
    var i := |s| - |t|;
    assert s[i..i + |r|] == r;
  }

  /** The trimmed text is blank exactly when `s` is all whitespace. */
  lemma TrimBlank(s: string)
    ensures Trim(s) == [] <==> forall k :: 0 <= k < |s| ==> IsWhitespace(s[k])
  {
    var t := TrimStart(s);
    if TrimEnd(t) == [] {
      assert t == [];
    }
    if t != [] {
      assert t[0] == s[|s| - |t|];
    }
  }

  /** Text with no whitespace at either end is left as it is. */
  lemma TrimUnpadded(s: string)
    requires s != [] && !IsWhitespace(s[0]) && !IsWhitespace(s[|s| - 1])
    ensures Trim(s) == s
  {
    assert TrimStart(s) == s;
  }

  /** Trimming twice is trimming once. */
  lemma TrimIdempotent(s: string)
    ensures Trim(Trim(s)) == Trim(s)
  {
    if Trim(s) != [] {
      TrimUnpadded(Trim(s));
    }
  }
}
