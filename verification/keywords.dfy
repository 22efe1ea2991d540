/**
 * Highlight keywords: the comma-separated input cleaned the way line 137
 * does it, and `expand_word_variants`, which lower-cases each word and adds
 * its naive plurals.
 */
module Keywords {
  import opened Text

  predicate EndsWithO(s: string) {
    |s| > 0 && s[|s| - 1] == 'o'
  }

  /**
   * `k` is one of the forms `expand_word_variants` adds for `w`: the
   * lower-cased word, the word plus `s`, and (only for words ending in `o`)
   * the word plus `es`.
   */
  predicate IsVariant(k: string, w: string) {
    var l := Lower(w);
    k == l || k == l + "s" || (EndsWithO(l) && k == l + "es")
  }

  function Variants(w: string): set<string> {
    var l := Lower(w);
    {l, l + "s"} + (if EndsWithO(l) then {l + "es"} else {})
  }

  /** The set `expand_word_variants` builds: exactly the variants of the words. */
  function Expand(words: seq<string>): (r: set<string>)
    ensures forall k :: k in r <==> exists i :: 0 <= i < |words| && IsVariant(k, words[i])
  {
    if |words| == 0 then {}
    else
      var init := words[..|words| - 1];
      var r := Expand(init) + Variants(words[|words| - 1]);
      assert forall i :: 0 <= i < |init| ==> init[i] == words[i];
      r
  }

  /**
   * `expand_word_variants`: the variant set turned into a list. The list's
   * order is the set's iteration order, which Python does not fix, so the
   * method may return the elements in any order.
   */
  method ExpandWordVariants(words: seq<string>) returns (list: seq<string>)
    ensures forall i, j :: 0 <= i < j < |list| ==> list[i] != list[j]
    ensures forall k :: k in list <==> exists i :: 0 <= i < |words| && IsVariant(k, words[i])
  {
    var expanded: set<string> := {};
    var n := 0;
    while n < |words|
      invariant 0 <= n <= |words|
      invariant forall k :: k in expanded <==> exists i :: 0 <= i < n && IsVariant(k, words[i])
    {
      var w := Lower(words[n]);
      expanded := expanded + {w};
      if EndsWithO(w) {
        expanded := expanded + {w + "es"};
      }
      expanded := expanded + {w + "s"};
      n := n + 1;
    }
    list := [];
    var rest := expanded;
    while rest != {}
      invariant forall k :: k in expanded <==> k in rest || k in list
      invariant forall k :: k in rest ==> k !in list
      invariant forall i, j :: 0 <= i < j < |list| ==> list[i] != list[j]
      decreases rest
    {
      var k :| k in rest;
      list := list + [k];
      rest := rest - {k};
    }
  }

  /** Lower-casing keeps length, so every variant is at least as long as its word. */
  lemma VariantLength(k: string, w: string)
    requires IsVariant(k, w)
    ensures |k| >= |w|
  {
  }

  /** Variants of non-empty words are non-empty. */
  lemma VariantsNonEmpty(words: seq<string>, list: seq<string>)
    requires forall i :: 0 <= i < |words| ==> |words[i]| > 0
    requires forall k :: k in list ==> exists i :: 0 <= i < |words| && IsVariant(k, words[i])
    ensures forall j :: 0 <= j < |list| ==> |list[j]| > 0
    ensures |words| == 0 ==> |list| == 0
  {
    if |list| > 0 {
      assert list[0] in list;
    }
    forall j | 0 <= j < |list| ensures |list[j]| > 0 {
      assert list[j] in list;
      var i :| 0 <= i < |words| && IsVariant(list[j], words[i]);
      VariantLength(list[j], words[i]);
    }
  }

  /** Line 137's filter over the pieces of the input: strip each, drop the empty ones. */
  function NonEmptyStripped(pieces: seq<string>): (r: seq<string>)
    ensures |r| <= |pieces|
  {
    if |pieces| == 0 then []
    else
      var w := Strip(pieces[0]);
      if |w| > 0 then [w] + NonEmptyStripped(pieces[1..]) else NonEmptyStripped(pieces[1..])
  }

  /** `w` is what stripping one of the pieces gives. */
  predicate StrippedPiece(w: string, pieces: seq<string>) {
    exists j :: 0 <= j < |pieces| && w == Strip(pieces[j])
  }

  /** Every kept word is a non-empty stripped piece. */
  lemma {:induction false} NonEmptyStrippedSound(pieces: seq<string>)
    ensures forall w :: w in NonEmptyStripped(pieces) ==> |w| > 0 && StrippedPiece(w, pieces)
  {
    if |pieces| > 0 {
      var tail := pieces[1..];
      NonEmptyStrippedSound(tail);
      forall w | StrippedPiece(w, tail) ensures StrippedPiece(w, pieces) {
        var j :| 0 <= j < |tail| && w == Strip(tail[j]);
        assert tail[j] == pieces[j + 1];
      }
    }
  }

  /** Every non-empty stripped piece is kept. */
  lemma {:induction false} NonEmptyStrippedComplete(pieces: seq<string>)
    ensures forall w :: |w| > 0 && StrippedPiece(w, pieces) ==> w in NonEmptyStripped(pieces)
  {
    if |pieces| > 0 {
      var tail := pieces[1..];
      var r := NonEmptyStripped(pieces);
      NonEmptyStrippedComplete(tail);
      assert forall x :: x in NonEmptyStripped(tail) ==> x in r;
      forall w | |w| > 0 && StrippedPiece(w, pieces) ensures w in r {
        var j :| 0 <= j < |pieces| && w == Strip(pieces[j]);
        if j > 0 {
          assert pieces[j] == tail[j - 1];
          assert StrippedPiece(w, tail);
        }
      }
    }
  }

  /** Stripping leaves an infix, so a piece without a comma stays without one. */
  lemma StripKeepsOut(s: string, c: char)
    requires c !in s
    ensures c !in Strip(s)
  {
    var r := Strip(s);
    var i, j :| 0 <= i <= j <= |s| && r == s[i..j];
    forall m | 0 <= m < |r| ensures r[m] != c {
      assert r[m] == s[i + m];
    }
  }

  /** A word that is non-empty, has no comma and no surrounding white space. */
  predicate CleanWord(w: string) {
    |w| > 0 && ',' !in w && !IsSpace(w[0]) && !IsSpace(w[|w| - 1])
  }

  /** Stripping comma-free pieces and dropping the empty ones leaves clean words only. */
  lemma {:induction false} KeptWordsClean(pieces: seq<string>)
    requires forall j :: 0 <= j < |pieces| ==> ',' !in pieces[j]
    ensures forall i :: 0 <= i < |NonEmptyStripped(pieces)| ==> CleanWord(NonEmptyStripped(pieces)[i])
  {
    if |pieces| > 0 {
      var tail := pieces[1..];
      assert forall j :: 0 <= j < |tail| ==> tail[j] == pieces[j + 1];
      KeptWordsClean(tail);
      var w := Strip(pieces[0]);
      if |w| > 0 {
        StripKeepsOut(pieces[0], ',');
        assert CleanWord(w);
        var r := NonEmptyStripped(pieces);
        assert r == [w] + NonEmptyStripped(tail);
      }
    }
  }

  /**
   * `[w.strip() for w in highlight_input.split(",") if w.strip()]`: the
   * non-blank comma-separated words, trimmed, in input order.
   */
  function KeywordsFrom(input: string): (r: seq<string>)
    ensures forall i :: 0 <= i < |r| ==> CleanWord(r[i])
  {
    var pieces := Split(input, ',');
    KeptWordsClean(pieces);
    NonEmptyStripped(pieces)
  }

  /** The plural rule on two words: `potato` gains both plurals, `Apple` only `s`. */
  lemma ExpandExamples()
    ensures Expand(["potato"]) == {"potato", "potatos", "potatoes"}
    ensures Expand(["Apple"]) == {"apple", "apples"}
  {
    assert Lower("potato") == "potato";
    assert Lower("Apple") == "apple";
    assert "potato" + "s" == "potatos" && "potato" + "es" == "potatoes";
    assert "apple" + "s" == "apples";
    assert EndsWithO("potato") && !EndsWithO("apple");
    assert Variants("potato") == {"potato", "potatos", "potatoes"};
    assert Variants("Apple") == {"apple", "apples"};
    assert ["potato"][..0] == [] && ["Apple"][..0] == [];
  }
}
