/**
 The offline indexer's text normalisation (`preprocess_text`) and its record
 cleaning: projection to the four required columns, dropping rows with a
 missing value, building the combined text and its cleaned form. Vectorising
 and similarity computation are not part of this model.
 */
module Preprocess {
  import opened Wrappers
  import opened Seqs
  import opened Text
  import opened Tokenizer

  /** The stopword filter of the list comprehension: keep a token exactly when it is not a stopword. */
  function NotStopword(S: set<string>): string -> bool {
    t => t !in S
  }

  /** The tokens of `text` after letter filtering, lower-casing and tokenizing, before stopword removal. */
  function NormalTokens(text: string): seq<string> {
    Tokenize(Lower(KeepLettersAndSpaces(text)))
  }

  /** The tokens `preprocess_text` keeps: the normal tokens that are not stopwords, in order. */
  function KeptTokens(text: string, S: set<string>): seq<string> {
    Filter(NormalTokens(text), NotStopword(S))
  }

  /** After letter filtering and lower-casing, every character is a lower-case letter or whitespace. */
  lemma NormalChars(text: string)
    ensures forall c :: c in Lower(KeepLettersAndSpaces(text)) ==> IsLowerLetter(c) || IsSpace(c)
  {
    var s := KeepLettersAndSpaces(text);
    forall c | c in Lower(s) ensures IsLowerLetter(c) || IsSpace(c) {
      var i :| 0 <= i < |s| && Lower(s)[i] == c;
      assert IsAsciiLetter(s[i]) || IsSpace(s[i]);
    }
  }

  /** Every kept token is a non-empty run of lower-case letters and is neither a stopword nor a contraction. */
  lemma KeptTokensShape(text: string, S: set<string>)
    ensures forall k :: 0 <= k < |KeptTokens(text, S)| ==>
              var t := KeptTokens(text, S)[k];
              && t != [] && NoSpace(t) && !IsContraction(t) && t !in S
              && forall c :: c in t ==> IsLowerLetter(c)
  {
    var ts, kept := NormalTokens(text), KeptTokens(text, S);
    NormalChars(text);
    forall k | 0 <= k < |kept|
      ensures var t := kept[k];
              && t != [] && NoSpace(t) && !IsContraction(t) && t !in S
              && forall c :: c in t ==> IsLowerLetter(c)
    {
      assert kept[k] in ts && NotStopword(S)(kept[k]);
      var j :| 0 <= j < |ts| && ts[j] == kept[k];
    }
  }

  /** The text holds no ASCII letter: blank, digits, punctuation or other scripts only. */
  predicate NoLetter(s: string) {
    forall i :: 0 <= i < |s| ==> !IsAsciiLetter(s[i])
  }

  /** A lower-case letter or the joining space: the alphabet of normalised text. */
  predicate IsNormalChar(c: char) {
    IsLowerLetter(c) || c == ' '
  }

  /** Joining lower-case, non-empty tokens gives well-spaced lower-case text that splits back into the tokens. */
  lemma JoinTokens(ts: seq<string>)
    requires forall k :: 0 <= k < |ts| ==> ts[k] != [] && NoSpace(ts[k])
    requires forall k, c :: 0 <= k < |ts| && c in ts[k] ==> IsLowerLetter(c)
    ensures forall i :: 0 <= i < |Join(ts)| ==> IsNormalChar(Join(ts)[i])
    ensures WellSpaced(Join(ts))
    ensures Words(Join(ts)) == ts
    ensures Join(ts) == [] <==> ts == []
  {
    JoinChars(ts, IsNormalChar);
    JoinWellSpaced(ts);
    WordsJoin(ts);
  }

  /** `preprocess_text`: strip, lower-case, tokenize, drop stopwords, join with single spaces. */
  function PreprocessText(text: string, S: set<string>): (r: string)
    ensures forall i :: 0 <= i < |r| ==> IsNormalChar(r[i])
    ensures WellSpaced(r)
    ensures Words(r) == KeptTokens(text, S)
    ensures forall k :: 0 <= k < |Words(r)| ==> Words(r)[k] !in S
    ensures r == [] <==> KeptTokens(text, S) == []
  {
    KeptTokensShape(text, S);
    JoinTokens(KeptTokens(text, S));
    Join(KeptTokens(text, S))
  }

  /** The kept tokens are the non-stopword normal tokens, each taken from its own position, in increasing position order. */
  lemma KeptTokensOrder(text: string, S: set<string>)
    ensures var ts, kept := NormalTokens(text), KeptTokens(text, S);
            var ps := Positions(ts, NotStopword(S));
            && |kept| == |ps|
            && StrictlyIncreasing(ps)
            && (forall i :: 0 <= i < |ts| ==> (ts[i] !in S <==> i in ps))
            && forall k :: 0 <= k < |ps| ==> kept[k] == ts[ps[k]]
  {
    FilterIsSelection(NormalTokens(text), NotStopword(S));
  }

  /**
   The output's tokens are the normal tokens of the input that are not
   stopwords, each taken from its own position, in increasing position order.
   */
  lemma PreprocessTokenOrder(text: string, S: set<string>)
    ensures var ts, out := NormalTokens(text), Words(PreprocessText(text, S));
            var ps := Positions(ts, NotStopword(S));
            && |out| == |ps|
            && StrictlyIncreasing(ps)
            && (forall i :: 0 <= i < |ts| ==> (ts[i] !in S <==> i in ps))
            && forall k :: 0 <= k < |ps| ==> out[k] == ts[ps[k]]
  {
    KeptTokensOrder(text, S);
    assert Words(PreprocessText(text, S)) == KeptTokens(text, S);
  }

  /** Normalising normalised text changes nothing. */
  lemma PreprocessIdempotent(text: string, S: set<string>)
    ensures PreprocessText(PreprocessText(text, S), S) == PreprocessText(text, S)
  {
    var r := PreprocessText(text, S);
    var kept := KeptTokens(text, S);
    KeepIdentity(r);
    LowerIdentity(r);
    KeptTokensShape(text, S);
    TokenizeJoin(kept);
    assert NormalTokens(r) == kept;
    FilterAllPass(kept, NotStopword(S));
  }

  /** Empty input, input without letters, and input made only of stopwords all normalise to the empty string. */
  lemma PreprocessEmpty(text: string, S: set<string>)
    ensures PreprocessText("", S) == ""
    ensures NoLetter(text) ==> PreprocessText(text, S) == ""
    ensures (forall k :: 0 <= k < |NormalTokens(text)| ==> NormalTokens(text)[k] in S) ==>
              PreprocessText(text, S) == ""
  {
    var s := KeepLettersAndSpaces(text);
    if NoLetter(text) {
      forall i | 0 <= i < |Lower(s)| ensures IsSpace(Lower(s)[i]) {
        assert s[i] in text;
      }
    }
    if forall k :: 0 <= k < |NormalTokens(text)| ==> NormalTokens(text)[k] in S {
      FilterNonePass(NormalTokens(text), NotStopword(S));
    }
    assert KeepLettersAndSpaces("") == "";
  }

  lemma StripSplit(a: string, b: string)
    ensures KeepLettersAndSpaces(a + " " + b) == KeepLettersAndSpaces(a) + [' '] + KeepLettersAndSpaces(b)
  {
    assert a + " " + b == a + (" " + b);
    KeepConcat(a, " " + b);
    KeepConcat(" ", b);
    assert KeepLettersAndSpaces(" ") == " ";
  }

  lemma LowerSplit(x: string, y: string)
    ensures Lower(x + [' '] + y) == Lower(x) + [' '] + Lower(y)
  {
  }

  lemma NormalTokensSplit(a: string, b: string)
    ensures NormalTokens(a + " " + b) == NormalTokens(a) + NormalTokens(b)
  {
    var sa, sb := KeepLettersAndSpaces(a), KeepLettersAndSpaces(b);
    StripSplit(a, b);
    LowerSplit(sa, sb);
    TokenizeSplitAt(Lower(sa), ' ', Lower(sb));
  }

  /** A whitespace separator never fuses words: normalising `a + " " + b` keeps the tokens of `a` then those of `b`. */
  lemma KeptTokensSplit(a: string, b: string, S: set<string>)
    ensures KeptTokens(a + " " + b, S) == KeptTokens(a, S) + KeptTokens(b, S)
  {
    NormalTokensSplit(a, b);
    FilterConcat(NormalTokens(a), NormalTokens(b), NotStopword(S));
  }

  /** A raw catalog row: the four required columns, each possibly missing, and every other column of the file. */
  datatype RawRow = RawRow(
    genres: Option<string>,
    keywords: Option<string>,
    overview: Option<string>,
    title: Option<string>,
    otherColumns: map<string, Option<string>>)

  /** A row of the cleaned table. */
  datatype Movie = Movie(
    genres: string,
    keywords: string,
    overview: string,
    title: string,
    combined: string,
    cleanedText: string)

  /** The test `dropna` applies after the projection: none of the four required columns is missing. */
  predicate HasRequiredFields(row: RawRow) {
    row.genres.Some? && row.keywords.Some? && row.overview.Some? && row.title.Some?
  }

  /** The three text columns joined with single spaces. */
  function Combine(genres: string, keywords: string, overview: string): string {
    genres + " " + keywords + " " + overview
  }

  /** The cleaned-table row built from a complete raw row. */
  function ToMovie(row: RawRow, S: set<string>): Movie
    requires HasRequiredFields(row)
  {
    var combined := Combine(row.genres.value, row.keywords.value, row.overview.value);
    Movie(row.genres.value, row.keywords.value, row.overview.value, row.title.value,
          combined, PreprocessText(combined, S))
  }

  /** The derived columns of a cleaned row agree with its source columns. */
  predicate WellDerived(m: Movie, S: set<string>) {
    && m.combined == Combine(m.genres, m.keywords, m.overview)
    && m.cleanedText == PreprocessText(m.combined, S)
  }

  /** The cleaned text of a row holds the kept tokens of its genres, then its keywords, then its overview. */
  lemma CleanedTextOfFields(row: RawRow, S: set<string>)
    requires HasRequiredFields(row)
    ensures Words(ToMovie(row, S).cleanedText) ==
              KeptTokens(row.genres.value, S) + KeptTokens(row.keywords.value, S)
              + KeptTokens(row.overview.value, S)
  {
    var g, k, o := row.genres.value, row.keywords.value, row.overview.value;
    assert Combine(g, k, o) == (g + " " + k) + " " + o;
    KeptTokensSplit(g + " " + k, o, S);
    KeptTokensSplit(g, k, S);
  }

  /** The cleaning pipeline: `df[required].dropna().reset_index(drop=True)`, then the `combined` and `cleaned_text` columns. */
  function Clean(rows: seq<RawRow>, S: set<string>): (ms: seq<Movie>)
    ensures |ms| <= |rows|
    ensures forall k :: 0 <= k < |ms| ==> WellDerived(ms[k], S)
  {
    var kept := Filter(rows, HasRequiredFields);
    seq(|kept|, k requires 0 <= k < |kept| => ToMovie(kept[k], S))
  }

  /**
   Cleaning keeps exactly the complete rows, in their original order, and
   renumbers them from zero: row `k` of the result comes from the `k`-th
   complete raw row, with its four columns unchanged.
   */
  lemma CleanSelects(rows: seq<RawRow>, S: set<string>)
    ensures var ps := Positions(rows, HasRequiredFields);
            && |Clean(rows, S)| == |ps|
            && (forall i :: 0 <= i < |rows| ==> (HasRequiredFields(rows[i]) <==> i in ps))
            && StrictlyIncreasing(ps)
            && forall k :: 0 <= k < |ps| ==>
                 && HasRequiredFields(rows[ps[k]])
                 && Clean(rows, S)[k] == ToMovie(rows[ps[k]], S)
                 && Clean(rows, S)[k].title == rows[ps[k]].title.value
                 && Clean(rows, S)[k].genres == rows[ps[k]].genres.value
                 && Clean(rows, S)[k].keywords == rows[ps[k]].keywords.value
                 && Clean(rows, S)[k].overview == rows[ps[k]].overview.value
  {
    FilterIsSelection(rows, HasRequiredFields);
  }

  /**
   A complete row is kept even when no field holds an ASCII letter (a cell
   of blanks, say, or digits only); its cleaned text is then empty.
   */
  lemma LetterlessRowKept(genres: string, keywords: string, overview: string, title: string, S: set<string>)
    requires NoLetter(genres) && NoLetter(keywords) && NoLetter(overview)
    ensures var row := RawRow(Some(genres), Some(keywords), Some(overview), Some(title), map[]);
            && |Clean([row], S)| == 1
            && Clean([row], S)[0].title == title
            && Clean([row], S)[0].cleanedText == ""
  {
    var row := RawRow(Some(genres), Some(keywords), Some(overview), Some(title), map[]);
    assert Filter([row], HasRequiredFields) == [row];
    var combined := Combine(genres, keywords, overview);
    assert NoLetter(combined) by {
      forall i | 0 <= i < |combined| ensures !IsAsciiLetter(combined[i]) {
        if i < |genres| {
          assert combined[i] == genres[i];
        } else if i == |genres| || i == |genres| + 1 + |keywords| {
          assert combined[i] == ' ';
        } else if i < |genres| + 1 + |keywords| {
          assert combined[i] == keywords[i - |genres| - 1];
        } else {
          assert combined[i] == overview[i - |genres| - |keywords| - 2];
        }
      }
    }
    PreprocessEmpty(combined, S);
  }

  /** A row with a missing required field is dropped, whatever its other columns hold. */
  lemma IncompleteRowDropped(row: RawRow, S: set<string>)
    requires !HasRequiredFields(row)
    ensures Clean([row], S) == []
  {
    assert Filter([row], HasRequiredFields) == [];
  }

  /** Only the four required columns matter: rows that agree on them clean to the same table. */
  lemma CleanIgnoresOtherColumns(rows: seq<RawRow>, rows': seq<RawRow>, S: set<string>)
    requires |rows| == |rows'|
    requires forall i :: 0 <= i < |rows| ==>
               rows[i].(otherColumns := map[]) == rows'[i].(otherColumns := map[])
    ensures Clean(rows, S) == Clean(rows', S)
  {
    var ps, ps' := Positions(rows, HasRequiredFields), Positions(rows', HasRequiredFields);
    CleanSelects(rows, S);
    CleanSelects(rows', S);
    assert forall i :: 0 <= i < |rows| ==> HasRequiredFields(rows[i]) == HasRequiredFields(rows'[i]) by {
      forall i | 0 <= i < |rows| ensures HasRequiredFields(rows[i]) == HasRequiredFields(rows'[i]) {
        assert rows[i].(otherColumns := map[]).title == rows[i].title;
        assert rows'[i].(otherColumns := map[]).title == rows'[i].title;
      }
    }
    SamePositions(rows, rows');
    assert ps == ps';
    forall k | 0 <= k < |ps| ensures Clean(rows, S)[k] == Clean(rows', S)[k] {
      var i := ps[k];
      assert rows[i].(otherColumns := map[]).genres == rows[i].genres;
      assert rows'[i].(otherColumns := map[]).genres == rows'[i].genres;
      assert rows[i].(otherColumns := map[]).keywords == rows[i].keywords;
      assert rows'[i].(otherColumns := map[]).keywords == rows'[i].keywords;
      assert rows[i].(otherColumns := map[]).overview == rows[i].overview;
      assert rows'[i].(otherColumns := map[]).overview == rows'[i].overview;
      assert rows[i].(otherColumns := map[]).title == rows[i].title;
      assert rows'[i].(otherColumns := map[]).title == rows'[i].title;
    }
  }

  lemma {:induction false} SamePositionsFrom(rows: seq<RawRow>, rows': seq<RawRow>, lo: nat)
    requires |rows| == |rows'|
    requires forall i :: 0 <= i < |rows| ==> HasRequiredFields(rows[i]) == HasRequiredFields(rows'[i])
    ensures PositionsFrom(rows, HasRequiredFields, lo) == PositionsFrom(rows', HasRequiredFields, lo)
    decreases |rows| - lo
  {
    if lo < |rows| {
      SamePositionsFrom(rows, rows', lo + 1);
    }
  }

  lemma SamePositions(rows: seq<RawRow>, rows': seq<RawRow>)
    requires |rows| == |rows'|
    requires forall i :: 0 <= i < |rows| ==> HasRequiredFields(rows[i]) == HasRequiredFields(rows'[i])
    ensures Positions(rows, HasRequiredFields) == Positions(rows', HasRequiredFields)
  {
    SamePositionsFrom(rows, rows', 0);
  }
}
