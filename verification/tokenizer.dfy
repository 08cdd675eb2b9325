/**
 The word tokenizer as it behaves on text that holds only ASCII letters and
 whitespace: a split on runs of whitespace, after which the Treebank
 contraction rules break six fixed words in two (`cannot` into `can not`,
 `gimme`, `gonna`, `gotta`, `lemme`, `wanna` likewise), in any mix of upper
 and lower case, as the rules match case-insensitively. Every other Treebank
 rule needs a punctuation mark, an apostrophe or a quote, and none survive the
 letter filter that runs first.
 */
module Tokenizer {
  import opened Text

  /** The words the Treebank contraction rules split when they stand alone, in lower case. */
  const Contractions: set<string> := {"cannot", "gimme", "gonna", "gotta", "lemme", "wanna"}

  /** A contraction word in any case. */
  predicate IsContraction(w: string) {
    Lower(w) in Contractions
  }

  /** Contraction words have five or six letters, so anything shorter is not one. */
  lemma ContractionLength(w: string)
    ensures IsContraction(w) ==> 5 <= |w| <= 6
  {
  }

  /** The pieces one whitespace-delimited word becomes: every contraction splits after its third letter. */
  function Expand(w: string): (ps: seq<string>)
    ensures 1 <= |ps| <= 2
    ensures |ps| == 2 <==> IsContraction(w)
    ensures |ps| == 2 ==> ps == [w[..3], w[3..]]
    ensures ps[0] + (if |ps| == 2 then ps[1] else []) == w
    ensures forall k :: 0 <= k < |ps| ==> !IsContraction(ps[k]) && (w != [] ==> ps[k] != [])
  {
    ContractionLength(w);
    if IsContraction(w) then
      ContractionLength(w[..3]);
      ContractionLength(w[3..]);
      [w[..3], w[3..]]
    else [w]
  }

  /** The split points agree with the rules' groups, whatever the case of the word. */
  lemma ExpandExamples()
    ensures Expand("cannot") == ["can", "not"]
    ensures Expand("Cannot") == ["Can", "not"]
    ensures Expand("WANNA") == ["WAN", "NA"]
    ensures Expand("canned") == ["canned"]
  {
    assert Lower("cannot") == "cannot";
    assert "cannot"[..3] == "can" && "cannot"[3..] == "not";
    assert Lower("Cannot") == "cannot";
    assert "Cannot"[..3] == "Can" && "Cannot"[3..] == "not";
    assert Lower("WANNA") == "wanna";
    assert "WANNA"[..3] == "WAN" && "WANNA"[3..] == "NA";
    assert Lower("canned") == "canned";
  }

  /** The pieces of each word in turn. */
  function ExpandAll(ws: seq<string>): (ts: seq<string>)
    ensures |ts| >= |ws|
  {
    if ws == [] then [] else Expand(ws[0]) + ExpandAll(ws[1..])
  }

  /** No piece is a contraction, pieces of non-empty words are non-empty, and every character of a piece comes from some word. */
  lemma {:induction false} ExpandAllShape(ws: seq<string>)
    ensures forall k :: 0 <= k < |ExpandAll(ws)| ==> !IsContraction(ExpandAll(ws)[k])
    ensures (forall j :: 0 <= j < |ws| ==> ws[j] != []) ==>
              forall k :: 0 <= k < |ExpandAll(ws)| ==> ExpandAll(ws)[k] != []
    ensures forall k, c :: 0 <= k < |ExpandAll(ws)| && c in ExpandAll(ws)[k] ==>
              exists j :: 0 <= j < |ws| && c in ws[j]
  {
    if ws != [] {
      ExpandAllShape(ws[1..]);
      var ps, rest := Expand(ws[0]), ExpandAll(ws[1..]);
      assert ExpandAll(ws) == ps + rest;
      assert forall k, c :: 0 <= k < |ps| && c in ps[k] ==> c in ws[0] by {
        forall k, c | 0 <= k < |ps| && c in ps[k] ensures c in ws[0] {
          assert ps[0] + (if |ps| == 2 then ps[1] else []) == ws[0];
        }
      }
      assert forall j, c :: 1 <= j < |ws| && c in ws[j] ==> c in ws[1..][j - 1];
    }
  }

  /** `word_tokenize` on text of ASCII letters and whitespace. */
  function Tokenize(s: string): (ts: seq<string>)
    ensures forall k :: 0 <= k < |ts| ==> ts[k] != [] && NoSpace(ts[k]) && !IsContraction(ts[k])
    ensures forall k, c :: 0 <= k < |ts| && c in ts[k] ==> c in s && !IsSpace(c)
    ensures ts == [] <==> forall i :: 0 <= i < |s| ==> IsSpace(s[i])
  {
    var ws := Words(s);
    WordsShape(s);
    var ts := ExpandAll(ws);
    ExpandAllShape(ws);
    assert forall k, c :: 0 <= k < |ts| && c in ts[k] ==> c in s && !IsSpace(c) by {
      forall k, c | 0 <= k < |ts| && c in ts[k] ensures c in s && !IsSpace(c) {
        var j :| 0 <= j < |ws| && c in ws[j];
        var i :| 0 <= i < |ws[j]| && ws[j][i] == c;
      }
    }
    assert forall k :: 0 <= k < |ts| ==> NoSpace(ts[k]) by {
      forall k, i | 0 <= k < |ts| && 0 <= i < |ts[k]| ensures !IsSpace(ts[k][i]) {
        assert ts[k][i] in ts[k];
      }
    }
    ts
  }

  lemma {:induction false} ExpandAllConcat(a: seq<string>, b: seq<string>)
    ensures ExpandAll(a + b) == ExpandAll(a) + ExpandAll(b)
  {
    if a == [] {
      assert a + b == b;
    } else {
      assert (a + b)[0] == a[0];
      assert (a + b)[1..] == a[1..] + b;
      ExpandAllConcat(a[1..], b);
    }
  }

  /** Words that are not contractions are their own tokens. */
  lemma {:induction false} ExpandAllIdentity(ws: seq<string>)
    requires forall k :: 0 <= k < |ws| ==> !IsContraction(ws[k])
    ensures ExpandAll(ws) == ws
  {
    if ws != [] {
      ExpandAllIdentity(ws[1..]);
    }
  }

  /** A single word tokenizes to its pieces: a contraction word gives its two halves, any other word itself. */
  lemma TokenizeWord(w: string)
    requires w != [] && NoSpace(w)
    ensures Tokenize(w) == Expand(w)
  {
    RunLengthPrefix(w, []);
    assert w + [] == w;
    assert w[..|w|] == w && w[|w|..] == [];
    assert Words(w) == [w];
    assert [w][1..] == [];
    assert ExpandAll([w]) == Expand(w) + ExpandAll([]);
  }

  /** Round trip: tokenizing the single-space join of tokens gives back the tokens. */
  lemma TokenizeJoin(ts: seq<string>)
    requires forall k :: 0 <= k < |ts| ==> ts[k] != [] && NoSpace(ts[k]) && !IsContraction(ts[k])
    ensures Tokenize(Join(ts)) == ts
  {
    WordsJoin(ts);
    ExpandAllIdentity(ts);
  }

  /** A whitespace character never fuses tokens: the tokens of `a + [c] + b` are those of `a` then those of `b`. */
  lemma TokenizeSplitAt(a: string, c: char, b: string)
    requires IsSpace(c)
    ensures Tokenize(a + [c] + b) == Tokenize(a) + Tokenize(b)
  {
    WordsSplitAt(a, c, b);
    ExpandAllConcat(Words(a), Words(b));
  }
}
