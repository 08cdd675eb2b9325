/**
 Character classes and string operations of the text-normalisation step:
 the regular-expression class `[^a-zA-Z\s]`, `str.lower()` on ASCII letters,
 splitting on runs of whitespace, and `" ".join`.
 */
module Text {

  /** The regular-expression class `a-zA-Z`. */
  predicate IsAsciiLetter(c: char) {
    'a' <= c <= 'z' || 'A' <= c <= 'Z'
  }

  predicate IsLowerLetter(c: char) {
    'a' <= c <= 'z'
  }

  predicate IsUpperLetter(c: char) {
    'A' <= c <= 'Z'
  }

  /**
   Python's whitespace on `str` values: the characters matched by `\s` in a
   `str` pattern, which are also those for which `str.isspace()` holds and on
   which `str.split()` breaks.
   */
  predicate IsSpace(c: char) {
    || c == ' '
    || '\t' <= c <= '\r'
    || '\U{1C}' <= c <= '\U{1F}'
    || c == '\U{85}'
    || c == '\U{A0}'
    || c == '\U{1680}'
    || '\U{2000}' <= c <= '\U{200A}'
    || c == '\U{2028}'
    || c == '\U{2029}'
    || c == '\U{202F}'
    || c == '\U{205F}'
    || c == '\U{3000}'
  }

  predicate NoSpace(w: string) {
    forall i :: 0 <= i < |w| ==> !IsSpace(w[i])
  }

  /** Deletes every character that is neither an ASCII letter nor whitespace (`re.sub(r"[^a-zA-Z\s]", "", s)`). */
  function KeepLettersAndSpaces(s: string): (r: string)
    ensures |r| <= |s|
    ensures forall k :: 0 <= k < |r| ==> (IsAsciiLetter(r[k]) || IsSpace(r[k])) && r[k] in s
    ensures forall i :: 0 <= i < |s| && (IsAsciiLetter(s[i]) || IsSpace(s[i])) ==> s[i] in r
  {
    if s == [] then []
    else (if IsAsciiLetter(s[0]) || IsSpace(s[0]) then [s[0]] else []) + KeepLettersAndSpaces(s[1..])
  }

  /** Stripping distributes over concatenation: no character's fate depends on its neighbours. */
  lemma {:induction false} KeepConcat(a: string, b: string)
    ensures KeepLettersAndSpaces(a + b) == KeepLettersAndSpaces(a) + KeepLettersAndSpaces(b)
  {
    if a == [] {
      assert a + b == b;
    } else {
      assert (a + b)[0] == a[0];
      assert (a + b)[1..] == a[1..] + b;
      KeepConcat(a[1..], b);
    }
  }

  /** Text made only of letters and whitespace passes through stripping unchanged. */
  lemma {:induction false} KeepIdentity(s: string)
    requires forall i :: 0 <= i < |s| ==> IsAsciiLetter(s[i]) || IsSpace(s[i])
    ensures KeepLettersAndSpaces(s) == s
  {
    if s != [] {
      KeepIdentity(s[1..]);
    }
  }

  function LowerChar(c: char): (d: char)
    ensures IsUpperLetter(c) ==> IsLowerLetter(d) && d as int - c as int == 32
    ensures !IsUpperLetter(c) ==> d == c
  {
    if IsUpperLetter(c) then (c as int + 32) as char else c
  }

  /** `str.lower()` restricted to the ASCII alphabet. */
  function Lower(s: string): (r: string)
    ensures |r| == |s|
    ensures forall i :: 0 <= i < |s| ==> r[i] == LowerChar(s[i])
  {
    seq(|s|, i requires 0 <= i < |s| => LowerChar(s[i]))
  }

  /**
   What lower-casing a character means: no upper-case letter survives, doing
   it twice changes nothing, letters stay letters, and two characters get the
   same result exactly when they are equal or are the two cases of one letter.
   */
  lemma LowerCharLaws(c: char, d: char)
    ensures !IsUpperLetter(LowerChar(c))
    ensures LowerChar(LowerChar(c)) == LowerChar(c)
    ensures IsLowerLetter(LowerChar(c)) <==> IsAsciiLetter(c)
    ensures LowerChar(c) == LowerChar(d) <==>
              c == d || (IsAsciiLetter(c) && IsAsciiLetter(d) && (c as int - d as int == 32 || d as int - c as int == 32))
  {
  }

  /** Lower-casing is the identity on text that has no upper-case ASCII letter. */
  lemma LowerIdentity(s: string)
    requires forall i :: 0 <= i < |s| ==> !IsUpperLetter(s[i])
    ensures Lower(s) == s
  {
  }

  /** Length of the leading run of non-whitespace characters of `s`. */
  function RunLength(s: string): (n: nat)
    ensures n <= |s|
    ensures s != [] && !IsSpace(s[0]) ==> n >= 1
  {
    if s == [] || IsSpace(s[0]) then 0 else 1 + RunLength(s[1..])
  }

  /** The leading run is all non-whitespace and ends at whitespace or at the end of `s`. */
  lemma {:induction false} RunLengthShape(s: string)
    ensures forall i :: 0 <= i < RunLength(s) ==> !IsSpace(s[i])
    ensures RunLength(s) < |s| ==> IsSpace(s[RunLength(s)])
  {
    if s != [] && !IsSpace(s[0]) {
      RunLengthShape(s[1..]);
    }
  }

  /**
   The maximal runs of non-whitespace characters of `s`, left to right
   (`str.split()` with no separator).
   */
  function Words(s: string): seq<string>
    decreases |s|
  {
    if s == [] then []
    else if IsSpace(s[0]) then Words(s[1..])
    else [s[..RunLength(s)]] + Words(s[RunLength(s)..])
  }

  /**
   Every word is non-empty, holds no whitespace and is made of characters of
   `s`; there are no words exactly when `s` is all whitespace.
   */
  lemma {:induction false} WordsShape(s: string)
    ensures var ws := Words(s);
            && (forall k :: 0 <= k < |ws| ==> ws[k] != [] && NoSpace(ws[k]))
            && (forall k, c :: 0 <= k < |ws| && c in ws[k] ==> c in s)
            && (ws == [] <==> forall i :: 0 <= i < |s| ==> IsSpace(s[i]))
    decreases |s|
  {
    if s == [] {
    } else if IsSpace(s[0]) {
      WordsShape(s[1..]);
      assert forall i :: 1 <= i < |s| ==> s[i] == s[1..][i - 1];
      assert forall c :: c in s[1..] ==> c in s;
    } else {
      var n := RunLength(s);
      RunLengthShape(s);
      WordsShape(s[n..]);
      var ws := Words(s);
      assert ws[0] == s[..n];
      assert forall c :: c in s[..n] ==> c in s;
      assert forall c :: c in s[n..] ==> c in s;
    }
  }

  /** Joins words with single spaces (`" ".join(ws)`). */
  function Join(ws: seq<string>): string
  {
    if ws == [] then ""
    else if |ws| == 1 then ws[0]
    else ws[0] + " " + Join(ws[1..])
  }

  /** No leading or trailing space and no two consecutive spaces. */
  predicate WellSpaced(s: string) {
    && (s != [] ==> s[0] != ' ' && s[|s| - 1] != ' ')
    && forall i :: 0 <= i < |s| - 1 && s[i] == ' ' ==> s[i + 1] != ' '
  }

  /** Every character of a joined string is a separating space or a character of one of the words. */
  lemma {:induction false} JoinChars(ws: seq<string>, P: char -> bool)
    requires P(' ')
    requires forall k, c :: 0 <= k < |ws| && c in ws[k] ==> P(c)
    ensures forall c :: c in Join(ws) ==> P(c)
  {
    if |ws| > 1 {
      JoinChars(ws[1..], P);
      assert forall k, c :: 1 <= k < |ws| && c in ws[k] ==> c in ws[1..][k - 1];
    }
  }

  /** Joining non-empty words that hold no whitespace leaves no space at either end and no doubled space. */
  lemma {:induction false} JoinWellSpaced(ws: seq<string>)
    requires forall k :: 0 <= k < |ws| ==> ws[k] != [] && NoSpace(ws[k])
    ensures WellSpaced(Join(ws))
    ensures |ws| > 0 ==> Join(ws) != []
  {
    if |ws| > 1 {
      JoinWellSpaced(ws[1..]);
      var w, t := ws[0], Join(ws[1..]);
      var s := w + " " + t;
      assert s == Join(ws);
      assert forall i :: 0 <= i < |w| ==> s[i] == w[i];
      assert s[|w|] == ' ';
      assert forall i :: |w| < i < |s| ==> s[i] == t[i - |w| - 1];
      assert !IsSpace(w[|w| - 1]) && !IsSpace(t[0]);
    }
  }

  /** A leading run of non-whitespace ends where a whitespace character or the end of input follows it. */
  lemma {:induction false} RunLengthPrefix(w: string, rest: string)
    requires NoSpace(w)
    requires rest == [] || IsSpace(rest[0])
    ensures RunLength(w + rest) == |w|
  {
    if w != [] {
      assert (w + rest)[1..] == w[1..] + rest;
      RunLengthPrefix(w[1..], rest);
    } else {
      assert w + rest == rest;
    }
  }

  /** Round trip: splitting the join of non-empty whitespace-free words gives back the words. */
  lemma {:induction false} WordsJoin(ws: seq<string>)
    requires forall k :: 0 <= k < |ws| ==> ws[k] != [] && NoSpace(ws[k])
    ensures Words(Join(ws)) == ws
  {
    if |ws| == 1 {
      var w := ws[0];
      RunLengthPrefix(w, []);
      assert w + [] == w;
      assert w[|w|..] == [];
    } else if |ws| > 1 {
      var w, t := ws[0], Join(ws[1..]);
      var s := w + " " + t;
      RunLengthPrefix(w, " " + t);
      assert w + (" " + t) == s;
      assert s[..|w|] == w;
      assert s[|w|..] == " " + t;
      assert (" " + t)[1..] == t;
      WordsJoin(ws[1..]);
    }
  }

  /** When `a` starts with a word, so does `a + rest`, with the same first word, provided `rest` starts a new word or `a` has more. */
  lemma FirstRunUnchanged(a: string, rest: string)
    requires a != [] && !IsSpace(a[0])
    requires RunLength(a) < |a| || rest == [] || IsSpace(rest[0])
    ensures RunLength(a + rest) == RunLength(a)
    ensures (a + rest)[..RunLength(a)] == a[..RunLength(a)]
    ensures (a + rest)[RunLength(a)..] == a[RunLength(a)..] + rest
  {
    var n := RunLength(a);
    RunLengthShape(a);
    SplitAt(a, rest, n);
    var w, tail := a[..n], a[n..] + rest;
    assert NoSpace(w);
    RunLengthPrefix(w, tail);
  }

  /** Cutting `a + rest` at a position inside `a`. */
  lemma SplitAt(a: string, rest: string, n: nat)
    requires n <= |a|
    ensures (a + rest)[..n] == a[..n]
    ensures (a + rest)[n..] == a[n..] + rest
    ensures a[..n] + (a[n..] + rest) == a + rest
    ensures forall i :: 0 <= i < n ==> a[..n][i] == a[i]
    ensures n < |a| ==> (a[n..] + rest)[0] == a[n]
  {
    assert a == a[..n] + a[n..];
  }

  /** A whitespace character separates: the words of `a + [c] + b` are the words of `a` followed by those of `b`. */
  lemma WordsSplitAt(a: string, c: char, b: string)
    requires IsSpace(c)
    ensures Words(a + [c] + b) == Words(a) + Words(b)
  {
    var t := [c] + b;
    assert a + [c] + b == a + t;
    assert t[1..] == b;
    WordsSplitBefore(a, t);
  }

  /** The words of `a + t`, where `t` starts with whitespace, are those of `a` followed by those of the rest of `t`. */
  lemma {:induction false} WordsSplitBefore(a: string, t: string)
    requires t != [] && IsSpace(t[0])
    ensures Words(a + t) == Words(a) + Words(t[1..])
    decreases |a|
  {
    if a == [] {
      assert a + t == t;
    } else if IsSpace(a[0]) {
      WordsSplitBefore(a[1..], t);
      WordsSplitSpace(a, t);
    } else {
      WordsSplitBefore(a[RunLength(a)..], t);
      WordsSplitWord(a, t);
    }
  }

  lemma WordsSplitSpace(a: string, t: string)
    requires a != [] && IsSpace(a[0])
    ensures Words(a + t) == Words(a[1..] + t)
  {
    assert (a + t)[1..] == a[1..] + t;
  }

  lemma WordsSplitWord(a: string, t: string)
    requires t != [] && IsSpace(t[0]) && a != [] && !IsSpace(a[0])
    ensures Words(a + t) == [a[..RunLength(a)]] + Words(a[RunLength(a)..] + t)
  {
    FirstRunUnchanged(a, t);
  }

}
