/** The string operations the parser and the validators use, restricted to
    ASCII: lower- and upper-casing, `trim`, the `\s+` to one space rewrite,
    `split` on one character, `join`, decimal digits. Each JavaScript
    operation is written the way it computes; the lemmas relate it to a
    reference description (the white-space separated words of a string, the
    digits of a number). */
module Text {

  // ---------------------------------------------------------------------
  // Characters

  /** The ASCII characters that `String.prototype.trim` and the regular
      expression class `\s` treat as white space. */
  predicate IsSpace(c: char) {
    c == ' ' || c == '\t' || c == '\n' || c == '\U{B}' || c == '\U{C}' || c == '\r'
  }

  /** The characters the regular expression `.` does not match. */
  predicate IsLineTerminator(c: char) {
    c == '\n' || c == '\r' || c == '\U{2028}' || c == '\U{2029}'
  }

  predicate IsDigit(c: char) { '0' <= c <= '9' }
  predicate IsUpperLetter(c: char) { 'A' <= c <= 'Z' }
  predicate IsLowerLetter(c: char) { 'a' <= c <= 'z' }
  predicate IsLetter(c: char) { IsUpperLetter(c) || IsLowerLetter(c) }

  function LowerChar(c: char): char {
    if IsUpperLetter(c) then (c as int + 32) as char else c
  }

  function UpperChar(c: char): char {
    if IsLowerLetter(c) then (c as int - 32) as char else c
  }

  // ---------------------------------------------------------------------
  // Whole-string predicates

  predicate AllDigits(s: string) { forall i :: 0 <= i < |s| ==> IsDigit(s[i]) }
  predicate AllLetters(s: string) { forall i :: 0 <= i < |s| ==> IsLetter(s[i]) }
  predicate IsBlank(s: string) { forall i :: 0 <= i < |s| ==> IsSpace(s[i]) }
  predicate NoDot(s: string) { forall i :: 0 <= i < |s| ==> s[i] != '.' }

  /** A non-empty run of characters none of which is white space. */
  predicate IsWord(w: string) {
    w != [] && forall i :: 0 <= i < |w| ==> !IsSpace(w[i])
  }

  /** Neither the first nor the last character is white space. */
  predicate EdgeFree(s: string) {
    s == [] || (!IsSpace(s[0]) && !IsSpace(s[|s| - 1]))
  }

  // ---------------------------------------------------------------------
  // Case mapping

  /** `toLowerCase`. */
  function Lower(s: string): string {
    seq(|s|, i requires 0 <= i < |s| => LowerChar(s[i]))
  }

  /** `toUpperCase`. */
  function Upper(s: string): string {
    seq(|s|, i requires 0 <= i < |s| => UpperChar(s[i]))
  }

  lemma LowerIdempotent(s: string)
    ensures Lower(Lower(s)) == Lower(s)
  {
    assert forall i :: 0 <= i < |s| ==> LowerChar(LowerChar(s[i])) == LowerChar(s[i]);
  }

  /** `word.charAt(0).toUpperCase() + word.slice(1).toLowerCase()`. */
  function TitleCase(w: string): string {
    if w == [] then [] else [UpperChar(w[0])] + Lower(w[1..])
  }

  /** An upper-case first character followed by a lower-case rest. */
  predicate IsTitleCased(w: string) {
    w != [] && !IsLowerLetter(w[0]) && forall i :: 1 <= i < |w| ==> !IsUpperLetter(w[i])
  }

  /** `.map(TitleCase)` over a list of words. */
  function TitleCaseAll(ws: seq<string>): seq<string> {
    seq(|ws|, i requires 0 <= i < |ws| => TitleCase(ws[i]))
  }

  /** Title-casing a word gives a title-cased word and introduces neither
      white space nor dots. */
  lemma TitleCaseShape(w: string)
    requires IsWord(w)
    ensures IsTitleCased(TitleCase(w)) && IsWord(TitleCase(w))
    ensures NoDot(w) ==> NoDot(TitleCase(w))
  {
    var t := TitleCase(w);
    UpperCharShape(w[0]);
    assert t[0] == UpperChar(w[0]);
    forall i | 1 <= i < |w|
      ensures t[i] == LowerChar(w[i]) && !IsUpperLetter(t[i]) && !IsSpace(t[i]) && (w[i] != '.' ==> t[i] != '.')
    {
      LowerCharShape(w[i]);
    }
  }

  /** Lower-casing a character leaves no upper-case letter and maps white
      space and dots to themselves only. */
  lemma LowerCharShape(c: char)
    ensures !IsUpperLetter(LowerChar(c))
    ensures IsSpace(LowerChar(c)) <==> IsSpace(c)
    ensures LowerChar(c) == '.' <==> c == '.'
  {
  }

  /** Upper-casing a character leaves no lower-case letter and maps white
      space and dots to themselves only. */
  lemma UpperCharShape(c: char)
    ensures !IsLowerLetter(UpperChar(c))
    ensures IsSpace(UpperChar(c)) <==> IsSpace(c)
    ensures UpperChar(c) == '.' <==> c == '.'
  {
  }

  // ---------------------------------------------------------------------
  // Trimming

  /** The number of white-space characters `s` starts with. */
  function LeadingSpaces(s: string): (n: nat)
    ensures n <= |s|
    ensures forall i :: 0 <= i < n ==> IsSpace(s[i])
    ensures n == |s| || !IsSpace(s[n])
  {
    if s != [] && IsSpace(s[0]) then 1 + LeadingSpaces(s[1..]) else 0
  }

  /** The number of white-space characters `s` ends with. */
  function TrailingSpaces(s: string): (n: nat)
    ensures n <= |s|
    ensures forall i :: |s| - n <= i < |s| ==> IsSpace(s[i])
    ensures n == |s| || !IsSpace(s[|s| - n - 1])
  {
    if s != [] && IsSpace(s[|s| - 1]) then 1 + TrailingSpaces(s[..|s| - 1]) else 0
  }

  /** `trimStart`: drops the leading white space. */
  function TrimStart(s: string): string {
    s[LeadingSpaces(s)..]
  }

  /** `trimEnd`: drops the trailing white space. */
  function TrimEnd(s: string): string {
    s[..|s| - TrailingSpaces(s)]
  }

  /** `String.prototype.trim`. */
  function Trim(s: string): string {
    TrimEnd(TrimStart(s))
  }

  /** The trimmed string starts and ends with a non-space character. */
  lemma TrimEdgeFree(s: string)
    ensures EdgeFree(Trim(s))
  {
    var t := TrimStart(s);
    var r := TrimEnd(t);
    if r != [] {
      assert r[0] == t[0];
    }
  }

  /** `s.trim().length === 0` holds exactly of the blank strings. */
  lemma TrimEmptyIffBlank(s: string)
    ensures Trim(s) == [] <==> IsBlank(s)
  {
  }

  // ---------------------------------------------------------------------
  // Words and the `\s+` rewrite

  /** The length of the longest prefix without white space. */
  function WordLength(s: string): (n: nat)
    ensures n <= |s|
    ensures forall i :: 0 <= i < n ==> !IsSpace(s[i])
    ensures n == |s| || IsSpace(s[n])
  {
    if s == [] || IsSpace(s[0]) then 0 else 1 + WordLength(s[1..])
  }

  /** The longest prefix without white space. */
  function TakeWord(s: string): string {
    s[..WordLength(s)]
  }

  /** Reference description: the maximal white-space free runs of `s`, in
      order. */
  function Words(s: string): seq<string>
    decreases |s|
  {
    var t := TrimStart(s);
    if t == [] then []
    else
      var w := TakeWord(t);
      [w] + Words(t[|w|..])
  }

  /** `s.replace(/\s+/g, ' ')`: every maximal run of white space becomes one
      space. */
  function CollapseSpaces(s: string): string
    decreases |s|
  {
    if s == [] then []
    else if IsSpace(s[0]) then [' '] + CollapseSpaces(TrimStart(s))
    else [s[0]] + CollapseSpaces(s[1..])
  }

  /** `array.join(sep)` with a one-character separator. */
  function Join(ws: seq<string>, sep: char): string {
    if ws == [] then []
    else if |ws| == 1 then ws[0]
    else ws[0] + [sep] + Join(ws[1..], sep)
  }

  /** `s.split(sep)` with a one-character separator: the pieces between the
      separators. */
  function Split(s: string, sep: char): seq<string> {
    if s == [] then [[]]
    else
      var rest := Split(s[1..], sep);
      if s[0] == sep then [[]] + rest
      else [[s[0]] + rest[0]] + rest[1..]
  }

  /** There is at least one piece, joining the pieces with the separator
      gives `s` back, and no piece holds the separator. */
  lemma SplitParts(s: string, sep: char)
    ensures |Split(s, sep)| >= 1
    ensures Join(Split(s, sep), sep) == s
    ensures forall k :: 0 <= k < |Split(s, sep)| ==> sep !in Split(s, sep)[k]
  {
    SplitJoinsBack(s, sep);
    SplitPiecesFree(s, sep);
  }

  lemma {:induction false} SplitJoinsBack(s: string, sep: char)
    ensures Join(Split(s, sep), sep) == s
    decreases |s|
  {
    if s != [] {
      var rest := Split(s[1..], sep);
      SplitJoinsBack(s[1..], sep);
      if s[0] == sep {
        assert [] + [sep] + Join(rest, sep) == s;
      } else {
        var parts := [[s[0]] + rest[0]] + rest[1..];
        assert parts[1..] == rest[1..];
        JoinCons(s[0], rest, sep);
      }
    }
  }

  /** Prepending a character to the first piece prepends it to the join. */
  lemma JoinCons(c: char, ws: seq<string>, sep: char)
    requires ws != []
    ensures Join([[c] + ws[0]] + ws[1..], sep) == [c] + Join(ws, sep)
  {
    var parts := [[c] + ws[0]] + ws[1..];
    assert parts[0] == [c] + ws[0];
    assert parts[1..] == ws[1..];
  }

  lemma {:induction false} SplitPiecesFree(s: string, sep: char)
    ensures forall k :: 0 <= k < |Split(s, sep)| ==> sep !in Split(s, sep)[k]
    decreases |s|
  {
    if s != [] {
      var rest := Split(s[1..], sep);
      SplitPiecesFree(s[1..], sep);
      if s[0] != sep {
        var parts := [[s[0]] + rest[0]] + rest[1..];
        forall k | 0 <= k < |parts| ensures sep !in parts[k] {
          if k > 0 {
            assert parts[k] == rest[k];
          }
        }
      }
    }
  }

  /** Every word is a non-empty white-space free piece of `s`. */
  lemma {:induction false} WordsShape(s: string)
    ensures forall w :: w in Words(s) ==> IsWord(w) && (NoDot(s) ==> NoDot(w))
    decreases |s|
  {
    var t := TrimStart(s);
    if t != [] {
      var w := TakeWord(t);
      var rest := t[|w|..];
      WordsShape(rest);
      if NoDot(s) {
        assert forall i :: 0 <= i < |t| ==> t[i] == s[|s| - |t| + i];
        assert NoDot(t);
        assert forall i :: 0 <= i < |w| ==> w[i] == t[i];
        assert forall i :: 0 <= i < |rest| ==> rest[i] == t[|w| + i];
        assert NoDot(rest);
      }
      assert Words(s) == [w] + Words(rest);
    }
  }

  /** A white-space free prefix rewrites to itself. */
  lemma {:induction false} CollapseWord(s: string)
    ensures CollapseSpaces(s) == TakeWord(s) + CollapseSpaces(s[|TakeWord(s)|..])
    decreases |s|
  {
    var w := TakeWord(s);
    if s != [] && !IsSpace(s[0]) {
      var w' := TakeWord(s[1..]);
      var tail := s[1..][|w'|..];
      CollapseWord(s[1..]);
      TakeWordCons(s);
      calc {
        CollapseSpaces(s);
        [s[0]] + CollapseSpaces(s[1..]);
        [s[0]] + (w' + CollapseSpaces(tail));
        w + CollapseSpaces(tail);
      }
    } else {
      assert w == [];
      assert s[|w|..] == s;
    }
  }

  /** A word that starts with `c` is `c` followed by the rest's word. */
  lemma TakeWordCons(s: string)
    requires s != [] && !IsSpace(s[0])
    ensures TakeWord(s) == [s[0]] + TakeWord(s[1..])
    ensures s[|TakeWord(s)|..] == s[1..][|TakeWord(s[1..])|..]
  {
  }

  /** For a string without leading or trailing white space, the rewrite
      gives the words joined by single spaces. */
  lemma {:induction false} CollapseEdgeFree(s: string)
    requires EdgeFree(s)
    ensures CollapseSpaces(s) == Join(Words(s), ' ')
    decreases |s|
  {
    if s != [] {
      var w := TakeWord(s);
      var rest := s[|w|..];
      CollapseWord(s);
      WordsFirst(s);
      if rest != [] {
        var r2 := AfterFirstWord(s);
        CollapseEdgeFree(r2);
        JoinFirst(w, Words(r2), ' ');
      } else {
        assert Words(rest) == [];
      }
    }
  }

  /** A string that starts with a word has that word first. */
  lemma WordsFirst(s: string)
    requires s != [] && !IsSpace(s[0])
    ensures Words(s) == [TakeWord(s)] + Words(s[|TakeWord(s)|..])
  {
    assert TrimStart(s) == s;
  }

  /** Joining a word in front of a non-empty list adds one separator. */
  lemma JoinFirst(w: string, ws: seq<string>, sep: char)
    requires ws != []
    ensures Join([w] + ws, sep) == w + [sep] + Join(ws, sep)
  {
    assert ([w] + ws)[1..] == ws;
  }

  /** What follows the first word of an edge-free string, if anything,
      is white space and then an edge-free string with words. */
  lemma AfterFirstWord(s: string) returns (r2: string)
    requires EdgeFree(s) && s != []
    requires s[|TakeWord(s)|..] != []
    ensures var rest := s[|TakeWord(s)|..];
      && r2 == TrimStart(rest) && EdgeFree(r2) && |r2| < |s|
      && Words(rest) == Words(r2) && Words(r2) != []
      && CollapseSpaces(rest) == [' '] + CollapseSpaces(r2)
  {
    var w := TakeWord(s);
    var rest := s[|w|..];
    assert rest[|rest| - 1] == s[|s| - 1];
    r2 := TrimStart(rest);
    assert r2[|r2| - 1] == rest[|rest| - 1];
    assert TrimStart(r2) == r2;
    assert Words(rest) == Words(r2);
    assert CollapseSpaces(rest) == [' '] + CollapseSpaces(r2);
  }

  /** Trimming an all-blank string leaves nothing. */
  lemma TrimStartBlank(s: string)
    requires IsBlank(s)
    ensures TrimStart(s) == []
  {
  }

  /** Appending anything does not change what trimStart drops, unless
      everything was dropped. */
  lemma {:induction false} TrimStartAppend(t: string, z: string)
    requires TrimStart(t) != []
    ensures TrimStart(t + z) == TrimStart(t) + z
    decreases |t|
  {
    if t != [] && IsSpace(t[0]) {
      assert (t + z)[1..] == t[1..] + z;
      TrimStartAppend(t[1..], z);
    }
  }

  /** Appending text that starts with white space does not extend the
      first word. */
  lemma {:induction false} TakeWordAppend(t: string, z: string)
    requires z == [] || IsSpace(z[0])
    ensures TakeWord(t + z) == TakeWord(t)
    decreases |t|
  {
    if t == [] {
      assert t + z == z;
    } else if !IsSpace(t[0]) {
      assert (t + z)[1..] == t[1..] + z;
      TakeWordAppend(t[1..], z);
    }
  }

  /** Trailing white space adds no word. */
  lemma {:induction false} WordsAppendBlank(t: string, z: string)
    requires IsBlank(z)
    ensures Words(t + z) == Words(t)
    decreases |t|
  {
    var tt := TrimStart(t);
    if tt == [] {
      assert IsBlank(t + z) by {
        forall i | 0 <= i < |t + z| ensures IsSpace((t + z)[i]) {
          if i < |t| { assert (t + z)[i] == t[i]; } else { assert (t + z)[i] == z[i - |t|]; }
        }
      }
      TrimStartBlank(t + z);
    } else {
      TrimStartAppend(t, z);
      var w := TakeWord(tt);
      var zz := tt[|w|..];
      if zz == [] {
        assert tt + z == w + z;
      }
      assert zz == [] || IsSpace(zz[0]);
      assert tt == w + zz;
      assert tt + z == w + (zz + z);
      TakeWordAppend(tt, z);
      assert (tt + z)[|w|..] == zz + z;
      WordsAppendBlank(zz, z);
    }
  }

  /** Trimming does not change the words. */
  lemma WordsTrim(s: string)
    ensures Words(Trim(s)) == Words(s)
  {
    var t := TrimStart(s);
    WordsTrimStart(s);
    var z := TrimEndSplit(t);
    WordsAppendBlank(TrimEnd(t), z);
  }

  /** A string is its trimEnd followed by white space. */
  lemma TrimEndSplit(t: string) returns (z: string)
    ensures t == TrimEnd(t) + z && IsBlank(z)
  {
    z := t[|TrimEnd(t)|..];
    assert t == TrimEnd(t) + z;
  }

  /** Leading white space adds no word. */
  lemma WordsTrimStart(s: string)
    ensures Words(TrimStart(s)) == Words(s)
  {
    var t := TrimStart(s);
    assert LeadingSpaces(t) == 0;
    assert TrimStart(t) == t;
  }

  /** `s.trim().replace(/\s+/g, ' ')` is the words of `s` joined by single
      spaces. */
  lemma CollapseTrim(s: string)
    ensures CollapseSpaces(Trim(s)) == Join(Words(s), ' ')
  {
    TrimEdgeFree(s);
    CollapseEdgeFree(Trim(s));
    WordsTrim(s);
  }

  // ---------------------------------------------------------------------
  // Splitting what was joined

  lemma {:induction false} SplitNoSep(a: string, sep: char)
    requires sep !in a
    ensures Split(a, sep) == [a]
    decreases |a|
  {
    if a != [] {
      SplitNoSep(a[1..], sep);
      assert a[0] != sep;
      assert [a[0]] + a[1..] == a;
    }
  }

  lemma {:induction false} SplitAtFirstSep(a: string, b: string, sep: char)
    requires sep !in a
    ensures Split(a + [sep] + b, sep) == [a] + Split(b, sep)
    decreases |a|
  {
    if a == [] {
      assert a + [sep] + b == [sep] + b;
      assert ([sep] + b)[1..] == b;
    } else {
      assert (a + [sep] + b)[1..] == a[1..] + [sep] + b;
      SplitAtFirstSep(a[1..], b, sep);
      assert [a[0]] + a[1..] == a;
    }
  }

  /** Two separator-free pieces around one separator split into those
      two pieces. */
  lemma SplitAround(a: string, b: string, sep: char)
    requires sep !in a && sep !in b
    ensures Split(a + [sep] + b, sep) == [a, b]
  {
    SplitAtFirstSep(a, b, sep);
    SplitNoSep(b, sep);
  }

  /** A string that splits in two is the two pieces around its one
      separator. */
  lemma SplitTwo(s: string, sep: char)
    requires |Split(s, sep)| == 2
    ensures s == Split(s, sep)[0] + [sep] + Split(s, sep)[1]
  {
    var parts := Split(s, sep);
    SplitParts(s, sep);
    assert parts == [parts[0], parts[1]];
    assert parts[1..] == [parts[1]];
  }

  /** Splitting a join of separator-free pieces gives the pieces back. */
  lemma {:induction false} SplitJoin(ws: seq<string>, sep: char)
    requires ws != []
    requires forall k :: 0 <= k < |ws| ==> sep !in ws[k]
    ensures Split(Join(ws, sep), sep) == ws
    decreases |ws|
  {
    if |ws| == 1 {
      SplitNoSep(ws[0], sep);
    } else {
      SplitJoin(ws[1..], sep);
      SplitAtFirstSep(ws[0], Join(ws[1..], sep), sep);
    }
  }

  /** Joining non-empty, space-free, dot-free words with single spaces gives
      a string with no dot, no other white space than single spaces between
      words, and none at either end. */
  lemma {:induction false} JoinWordsShape(ws: seq<string>)
    requires forall k :: 0 <= k < |ws| ==> IsWord(ws[k]) && NoDot(ws[k])
    ensures ws != [] ==> Join(ws, ' ') != []
    ensures IsCleanText(Join(ws, ' '))
    decreases |ws|
  {
    if |ws| > 1 {
      JoinWordsShape(ws[1..]);
      var w := ws[0];
      var j := Join(ws[1..], ' ');
      var r := Join(ws, ' ');
      assert r == w + [' '] + j;
      assert forall i :: 0 <= i < |w| ==> r[i] == w[i];
      assert r[|w|] == ' ';
      assert forall i :: |w| < i < |r| ==> r[i] == j[i - |w| - 1];
    }
  }

  /** No dot, no white space other than `' '`, no space at either end and
      no two spaces in a row. */
  predicate IsCleanText(r: string) {
    && NoDot(r)
    && (forall i :: 0 <= i < |r| && IsSpace(r[i]) ==> r[i] == ' ')
    && EdgeFree(r)
    && (forall i :: 0 <= i < |r| - 1 && r[i] == ' ' ==> r[i + 1] != ' ')
  }

  // ---------------------------------------------------------------------
  // Decimal numbers

  function DigitValue(c: char): nat {
    if IsDigit(c) then c as int - '0' as int else 0
  }

  /** `parseInt` of a string of decimal digits. */
  function DecimalValue(s: string): nat {
    if s == [] then 0 else 10 * DecimalValue(s[..|s| - 1]) + DigitValue(s[|s| - 1])
  }

  function DigitChar(d: nat): char
    requires d < 10
  {
    ('0' as int + d) as char
  }

  /** The decimal notation of a natural number, without leading zeros. */
  function NatToDecimal(n: nat): (s: string)
    ensures s != [] && AllDigits(s)
  {
    if n < 10 then [DigitChar(n)] else NatToDecimal(n / 10) + [DigitChar(n % 10)]
  }

  /** `String(n)` for an integer. */
  function IntToDecimal(n: int): string {
    if n < 0 then "-" + NatToDecimal(-n) else NatToDecimal(n)
  }

  /** Reading back the decimal notation of `n` gives `n`. */
  lemma {:induction false} DecimalRoundTrip(n: nat)
    ensures DecimalValue(NatToDecimal(n)) == n
  {
    if n >= 10 {
      DecimalRoundTrip(n / 10);
      var s := NatToDecimal(n);
      assert s[..|s| - 1] == NatToDecimal(n / 10);
    }
  }
}
