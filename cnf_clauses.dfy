/**
 `clauses_from_formula` (KB_to_CNF.py:133-137): reading a CNF string as clauses.

 The formula is cut at every `∧` into conjuncts, and each conjunct is cut at
 every `∨` into literals, with Python's `str.split(sep)` for an explicit
 separator: no whitespace is stripped, empty pieces are kept, and a string with
 n separators gives n + 1 pieces. Each conjunct's pieces become one clause (a
 set, so order and repeats of literals are lost).
 */
module CnfClauses {
  import opened Literals

  const AndSign: char := '∧'
  const OrSign: char := '∨'

  /** Python's `s.split(sep)` for a one-character separator. */
  function Split(s: string, sep: char): (pieces: seq<string>)
    ensures |pieces| == multiset(s)[sep] + 1
    decreases |s|
  {
    if |s| == 0 then [""]
    else
      var rest := Split(s[1..], sep);
      assert s == [s[0]] + s[1..];
      assert multiset(s) == multiset([s[0]]) + multiset(s[1..]);
      if s[0] == sep then [""] + rest
      else [[s[0]] + rest[0]] + rest[1..]
  }

  /** Python's `sep.join(pieces)`. */
  function Join(pieces: seq<string>, sep: char): string
  {
    if |pieces| == 0 then ""
    else if |pieces| == 1 then pieces[0]
    else pieces[0] + [sep] + Join(pieces[1..], sep)
  }

  /** No piece holds the separator, and every character of a piece is one of the string. */
  lemma {:induction false} SplitPieces(s: string, sep: char, k: nat, ch: char)
    requires k < |Split(s, sep)|
    ensures sep !in Split(s, sep)[k]
    ensures ch in Split(s, sep)[k] ==> ch in s
    decreases |s|
  {
    if |s| > 0 {
      var rest := Split(s[1..], sep);
      if s[0] == sep {
        if k > 0 {
          assert Split(s, sep)[k] == rest[k - 1];
          SplitPieces(s[1..], sep, k - 1, ch);
        }
      } else {
        SplitPieces(s[1..], sep, k, ch);
        if k == 0 {
          assert Split(s, sep)[0] == [s[0]] + rest[0];
        } else {
          assert Split(s, sep)[k] == rest[k];
        }
      }
    }
  }

  /** Joining the pieces again with the separator gives back the string. */
  lemma {:induction false} JoinSplit(s: string, sep: char)
    ensures Join(Split(s, sep), sep) == s
    decreases |s|
  {
    if |s| > 0 {
      var tail := s[1..];
      JoinSplit(tail, sep);
      JoinSplitStep(s[0], tail, sep);
      assert [s[0]] + tail == s;
    }
  }

  /** One step of `JoinSplit`: a character in front of a string whose pieces join back to it. */
  lemma JoinSplitStep(c: char, tail: string, sep: char)
    requires Join(Split(tail, sep), sep) == tail
    ensures Join(Split([c] + tail, sep), sep) == [c] + tail
  {
    var rest := Split(tail, sep);
    if c == sep {
      SplitAtSeparator(tail, sep);
      JoinCons("", rest, sep);
      assert "" + [sep] + tail == [c] + tail;
    } else {
      SplitAtOther(c, tail, sep);
      JoinExtendFirst(c, rest, sep);
    }
  }

  /** A leading separator closes an empty first piece. */
  lemma SplitAtSeparator(tail: string, sep: char)
    ensures Split([sep] + tail, sep) == [""] + Split(tail, sep)
  {
    assert ([sep] + tail)[1..] == tail;
  }

  /** Any other leading character goes to the front of the first piece. */
  lemma SplitAtOther(c: char, tail: string, sep: char)
    requires c != sep
    ensures Split([c] + tail, sep) == [[c] + Split(tail, sep)[0]] + Split(tail, sep)[1..]
  {
    assert ([c] + tail)[1..] == tail;
  }

  /** Joining a first piece before a non-empty list puts one separator between them. */
  lemma JoinCons(first: string, rest: seq<string>, sep: char)
    requires |rest| > 0
    ensures Join([first] + rest, sep) == first + [sep] + Join(rest, sep)
  {
    assert ([first] + rest)[1..] == rest;
  }

  /** A character put before the first piece ends up in front of the joined text. */
  lemma JoinExtendFirst(c: char, pieces: seq<string>, sep: char)
    requires |pieces| > 0
    ensures Join([[c] + pieces[0]] + pieces[1..], sep) == [c] + Join(pieces, sep)
  {
    if |pieces| > 1 {
      var later := Join(pieces[1..], sep);
      JoinCons(pieces[0], pieces[1..], sep);
      assert [pieces[0]] + pieces[1..] == pieces;
      JoinCons([c] + pieces[0], pieces[1..], sep);
      assert [c] + pieces[0] + [sep] + later == [c] + (pieces[0] + [sep] + later);
    }
  }

  /** Splitting a separator-free word followed by more text extends the first piece. */
  lemma {:induction false} SplitAfterWord(w: string, t: string, sep: char)
    requires sep !in w
    ensures Split(w + t, sep) == [w + Split(t, sep)[0]] + Split(t, sep)[1..]
    decreases |w|
  {
    var pieces := Split(t, sep);
    if |w| > 0 {
      var later := w[1..] + t;
      var laterPieces := Split(later, sep);
      SplitAfterWord(w[1..], t, sep);
      assert laterPieces[0] == w[1..] + pieces[0];
      assert laterPieces[1..] == pieces[1..];
      assert w[0] in w;
      SplitAtOther(w[0], later, sep);
      FirstThenRest(w, t);
      FirstThenRest(w, pieces[0]);
    } else {
      assert w + t == t;
      assert w + pieces[0] == pieces[0];
      assert pieces == [pieces[0]] + pieces[1..];
    }
  }

  /** The first character of a non-empty string, then the rest of it followed by more. */
  lemma FirstThenRest(w: string, t: string)
    requires |w| > 0
    ensures [w[0]] + (w[1..] + t) == w + t
  {
    assert w == [w[0]] + w[1..];
  }

  /**
   Splitting is the inverse of joining on separator-free pieces: `Split` returns
   the only list of separator-free pieces that joins to the string.
   */
  lemma {:induction false} SplitJoin(pieces: seq<string>, sep: char)
    requires |pieces| > 0
    requires forall k :: 0 <= k < |pieces| ==> sep !in pieces[k]
    ensures Split(Join(pieces, sep), sep) == pieces
    decreases |pieces|
  {
    if |pieces| == 1 {
      assert Join(pieces, sep) == pieces[0] + "";
      SplitAfterWord(pieces[0], "", sep);
      assert pieces[0] + "" == pieces[0];
    } else {
      var rest := pieces[1..];
      assert [pieces[0]] + rest == pieces;
      assert sep !in pieces[0];
      assert Split(Join(rest, sep), sep) == rest by {
        SplitJoin(rest, sep);
      }
      SplitJoinStep(pieces[0], rest, sep);
    }
  }

  /** One step of `SplitJoin`: a separator-free piece in front of pieces that split back. */
  lemma SplitJoinStep(first: string, rest: seq<string>, sep: char)
    requires |rest| > 0 && sep !in first
    requires Split(Join(rest, sep), sep) == rest
    ensures Split(Join([first] + rest, sep), sep) == [first] + rest
  {
    var joined := Join(rest, sep);
    assert Join([first] + rest, sep) == first + ([sep] + joined) by {
      JoinCons(first, rest, sep);
      assert first + [sep] + joined == first + ([sep] + joined);
    }
    SplitWordThenSeparator(first, joined, sep);
  }

  /** A separator-free word, a separator, then more text: the word is the first piece. */
  lemma SplitWordThenSeparator(w: string, t: string, sep: char)
    requires sep !in w
    ensures Split(w + ([sep] + t), sep) == [w] + Split(t, sep)
  {
    var tail := [sep] + t;
    SplitAtSeparator(t, sep);
    var tailPieces := Split(tail, sep);
    assert tailPieces[0] == "" && tailPieces[1..] == Split(t, sep);
    SplitAfterWord(w, tail, sep);
    assert w + tailPieces[0] == w;
  }

  /** The set of the pieces, as `set(...)` builds it. */
  function ToSet(pieces: seq<string>): (c: Clause)
    ensures forall l :: l in c <==> l in pieces
  {
    set l | l in pieces
  }

  /** The conjuncts of a formula: the text between consecutive `∧` signs. */
  function Conjuncts(formula: string): seq<string>
  {
    Split(formula, AndSign)
  }

  /** `clauses_from_formula`: one clause per conjunct, holding that conjunct's `∨` pieces. */
  function ClausesFromFormula(formula: string): (clauses: seq<Clause>)
    ensures |clauses| == multiset(formula)[AndSign] + 1
    ensures forall k :: 0 <= k < |clauses| ==> clauses[k] != {}
  {
    var conjuncts := Conjuncts(formula);
    assert forall k :: 0 <= k < |conjuncts| ==> Split(conjuncts[k], OrSign)[0] in ToSet(Split(conjuncts[k], OrSign));
    seq(|conjuncts|, k requires 0 <= k < |conjuncts| => ToSet(Split(conjuncts[k], OrSign)))
  }

  /** Literals hold neither connective: both were consumed as separators. */
  lemma LiteralsFreeOfConnectives(formula: string, k: nat, l: Literal)
    requires k < |ClausesFromFormula(formula)| && l in ClausesFromFormula(formula)[k]
    ensures AndSign !in l && OrSign !in l
  {
    var conjuncts := Conjuncts(formula);
    var pieces := Split(conjuncts[k], OrSign);
    var m :| 0 <= m < |pieces| && pieces[m] == l;
    SplitPieces(conjuncts[k], OrSign, m, AndSign);
    SplitPieces(formula, AndSign, k, AndSign);
  }

  /** The conjuncts joined again with `∧` give back the formula, spaces included. */
  lemma ConjunctsJoin(formula: string)
    ensures Join(Conjuncts(formula), AndSign) == formula
  {
    JoinSplit(formula, AndSign);
  }

  /** Every literal is a piece of the formula's text between connectives. */
  lemma LiteralsComeFromFormula(formula: string, k: nat, l: Literal, ch: char)
    requires k < |ClausesFromFormula(formula)| && l in ClausesFromFormula(formula)[k] && ch in l
    ensures ch in formula
  {
    var conjuncts := Conjuncts(formula);
    var pieces := Split(conjuncts[k], OrSign);
    var m :| 0 <= m < |pieces| && pieces[m] == l;
    SplitPieces(conjuncts[k], OrSign, m, ch);
    SplitPieces(formula, AndSign, k, ch);
  }

  /** The CNF text whose conjuncts are the given literal lists. */
  function CnfText(conjuncts: seq<seq<Literal>>): string
  {
    Join(seq(|conjuncts|, k requires 0 <= k < |conjuncts| => Join(conjuncts[k], OrSign)), AndSign)
  }

  /**
   Reading back a CNF text built from literals free of `∧` and `∨` gives one
   clause per conjunct, holding exactly that conjunct's literals.
   */
  lemma ReadBackCnf(conjuncts: seq<seq<Literal>>)
    requires |conjuncts| > 0
    requires forall k :: 0 <= k < |conjuncts| ==> |conjuncts[k]| > 0
    requires forall k, m :: 0 <= k < |conjuncts| && 0 <= m < |conjuncts[k]| ==>
               AndSign !in conjuncts[k][m] && OrSign !in conjuncts[k][m]
    ensures |ClausesFromFormula(CnfText(conjuncts))| == |conjuncts|
    ensures forall k :: 0 <= k < |conjuncts| ==> ClausesFromFormula(CnfText(conjuncts))[k] == ToSet(conjuncts[k])
  {
    var texts := seq(|conjuncts|, k requires 0 <= k < |conjuncts| => Join(conjuncts[k], OrSign));
    forall k | 0 <= k < |texts| ensures AndSign !in texts[k] {
      JoinFree(conjuncts[k], OrSign, AndSign);
    }
    SplitJoin(texts, AndSign);
    assert Conjuncts(CnfText(conjuncts)) == texts;
    forall k | 0 <= k < |conjuncts|
      ensures ClausesFromFormula(CnfText(conjuncts))[k] == ToSet(conjuncts[k])
    {
      SplitJoin(conjuncts[k], OrSign);
    }
  }

  /** Joining pieces free of a character, with a different separator, stays free of it. */
  lemma {:induction false} JoinFree(pieces: seq<string>, sep: char, ch: char)
    requires ch != sep
    requires forall k :: 0 <= k < |pieces| ==> ch !in pieces[k]
    ensures ch !in Join(pieces, sep)
    decreases |pieces|
  {
    if |pieces| > 1 {
      JoinFree(pieces[1..], sep, ch);
    }
  }
}
