/** The keyword catalog and the relevance scorer of the collector
    (`PALAVRAS_CHAVE` and `PNCPCollector.calcular_relevancia` in app.py). */
module Scoring {
  import opened Text

  /** The fixed catalog, in the order the scorer walks it. */
  const PalavrasChave: seq<string> := [
    "impressora 3d", "impressao 3d", "impressora tridimensional",
    "fdm", "fff", "resina", "sla", "dlp", "lcd",
    "filamento", "pla", "abs", "petg", "tpu", "nylon",
    "scanner 3d", "manufatura aditiva", "fabricacao aditiva",
    "modelagem 3d", "prototipagem", "cad 3d"
  ]

  /** What one hit of keyword `p` adds to the score: 5 when the keyword
      itself contains "impressora", 2 otherwise. */
  function Weight(p: string): (w: nat)
    ensures w > 0
  {
    if Contains(p, "impressora") then 5 else 2
  }

  /** The pair `(score, achadas)` the scorer returns. */
  datatype Relevancia = Relevancia(score: nat, achadas: seq<string>)

  /** Walks `ks` in order over the (already lower-cased) text `t`, keeping
      each keyword that occurs in it and adding its weight. */
  function Scan(t: string, ks: seq<string>): Relevancia
    decreases |ks|
  {
    if ks == [] then Relevancia(0, [])
    else
      var prev := Scan(t, ks[..|ks| - 1]);
      var p := ks[|ks| - 1];
      if Contains(t, p) then Relevancia(prev.score + Weight(p), prev.achadas + [p])
      else prev
  }

  /** `calcular_relevancia(texto)`, as a value. */
  function Relevance(texto: string): Relevancia {
    Scan(Lower(texto), PalavrasChave)
  }

  /** The scorer's loop: lower-case once, then one pass over the catalog. */
  method CalcularRelevancia(texto: string) returns (score: nat, achadas: seq<string>)
    ensures Relevancia(score, achadas) == Relevance(texto)
  {
    var t := Lower(texto);
    score, achadas := 0, [];
    for i := 0 to |PalavrasChave|
      invariant Relevancia(score, achadas) == Scan(t, PalavrasChave[..i])
    {
      var p := PalavrasChave[i];
      assert PalavrasChave[..i + 1][..i] == PalavrasChave[..i];
      if Contains(t, p) {
        achadas := achadas + [p];
        score := score + Weight(p);
      }
    }
    assert PalavrasChave[..|PalavrasChave|] == PalavrasChave;
  }

  // ---------------------------------------------------------------------------
  // Reference definitions
  // ---------------------------------------------------------------------------

  /** The sum of the weights of `ms`, front to back. */
  function SumWeights(ms: seq<string>): nat
    decreases |ms|
  {
    if ms == [] then 0 else Weight(ms[0]) + SumWeights(ms[1..])
  }

  /** `idx` places every element of `a` in `b`, at strictly increasing indices. */
  ghost predicate Embeds(idx: seq<int>, a: seq<string>, b: seq<string>) {
    && |idx| == |a|
    && (forall j :: 0 <= j < |idx| ==> 0 <= idx[j] < |b| && b[idx[j]] == a[j])
    && (forall j, k :: 0 <= j < k < |idx| ==> idx[j] < idx[k])
  }

  /** `a` is `b` with some elements dropped, the rest kept in order. */
  ghost predicate IsSubsequence(a: seq<string>, b: seq<string>) {
    exists idx :: Embeds(idx, a, b)
  }

  // ---------------------------------------------------------------------------
  // Properties of the scan over any keyword list
  // ---------------------------------------------------------------------------

  lemma {:induction false} SumWeightsAppend(ms: seq<string>, p: string)
    ensures SumWeights(ms + [p]) == SumWeights(ms) + Weight(p)
    decreases |ms|
  {
    if ms != [] {
      assert (ms + [p])[1..] == ms[1..] + [p];
      SumWeightsAppend(ms[1..], p);
    }
  }

  lemma {:induction false} ScanScoreIsSum(t: string, ks: seq<string>)
    ensures Scan(t, ks).score == SumWeights(Scan(t, ks).achadas)
    decreases |ks|
  {
    if ks != [] {
      ScanScoreIsSum(t, ks[..|ks| - 1]);
      SumWeightsAppend(Scan(t, ks[..|ks| - 1]).achadas, ks[|ks| - 1]);
    }
  }

  lemma {:induction false} ScanMatches(t: string, ks: seq<string>)
    ensures forall p :: p in Scan(t, ks).achadas <==> p in ks && Contains(t, p)
    ensures Scan(t, ks).score == 0 <==> Scan(t, ks).achadas == []
    decreases |ks|
  {
    if ks != [] {
      var init := ks[..|ks| - 1];
      ScanMatches(t, init);
      assert ks == init + [ks[|ks| - 1]];
    }
  }

  lemma {:induction false} ScanInOrder(t: string, ks: seq<string>)
    ensures IsSubsequence(Scan(t, ks).achadas, ks)
    decreases |ks|
  {
    if ks == [] {
      assert Embeds([], [], ks);
    } else {
      var init := ks[..|ks| - 1];
      ScanInOrder(t, init);
      var idx :| Embeds(idx, Scan(t, init).achadas, init);
      if Contains(t, ks[|ks| - 1]) {
        assert Embeds(idx + [|ks| - 1], Scan(t, ks).achadas, ks);
      } else {
        assert Embeds(idx, Scan(t, ks).achadas, ks);
      }
    }
  }

  lemma {:induction false} ScanShortText(t: string, ks: seq<string>)
    requires forall p :: p in ks ==> |p| > |t|
    ensures Scan(t, ks) == Relevancia(0, [])
    decreases |ks|
  {
    if ks != [] {
      assert ks[|ks| - 1] in ks;
      assert forall p :: p in ks[..|ks| - 1] ==> p in ks;
      ScanShortText(t, ks[..|ks| - 1]);
    }
  }

  // ---------------------------------------------------------------------------
  // Properties of the scorer
  // ---------------------------------------------------------------------------

  /** The characters catalog keywords are written with. */
  predicate KeywordChar(c: char) {
    'a' <= c <= 'z' || c == ' ' || '0' <= c <= '9'
  }

  predicate KeywordWellFormed(p: string) {
    |p| > 0 && forall i :: 0 <= i < |p| ==> KeywordChar(p[i])
  }

  // The catalog is checked in five slices: one lemma over all 21 literals
  // costs the verifier far more than five small ones.
  lemma CatalogPart1() ensures forall i :: 0 <= i < 5 ==> KeywordWellFormed(PalavrasChave[i]) {}
  lemma CatalogPart2() ensures forall i :: 5 <= i < 10 ==> KeywordWellFormed(PalavrasChave[i]) {}
  lemma CatalogPart3() ensures forall i :: 10 <= i < 15 ==> KeywordWellFormed(PalavrasChave[i]) {}
  lemma CatalogPart4() ensures forall i :: 15 <= i < 18 ==> KeywordWellFormed(PalavrasChave[i]) {}
  lemma CatalogPart5() ensures forall i :: 18 <= i < 21 ==> KeywordWellFormed(PalavrasChave[i]) {}

  /** No catalog keyword is empty, none holds a comma or an upper-case letter. */
  lemma CatalogWellFormed()
    ensures forall p :: p in PalavrasChave ==> |p| > 0 && ',' !in p && NoUpper(p)
  {
    CatalogPart1();
    CatalogPart2();
    CatalogPart3();
    CatalogPart4();
    CatalogPart5();
    forall p | p in PalavrasChave ensures |p| > 0 && ',' !in p && NoUpper(p) {
      var i :| 0 <= i < |PalavrasChave| && PalavrasChave[i] == p;
      assert KeywordWellFormed(p);
    }
  }

  /** The score is the sum, over the matched keywords, of their weights
      (5 for a keyword containing "impressora", 2 otherwise). */
  lemma ScoreIsSumOfWeights(texto: string)
    ensures Relevance(texto).score == SumWeights(Relevance(texto).achadas)
  {
    ScanScoreIsSum(Lower(texto), PalavrasChave);
  }

  /** A catalog keyword is matched exactly when it occurs in the lower-cased
      text; the score is 0 exactly when nothing matched. */
  lemma MatchedAreTheOccurringKeywords(texto: string)
    ensures forall p :: p in Relevance(texto).achadas <==> p in PalavrasChave && Contains(Lower(texto), p)
    ensures Relevance(texto).score == 0 <==> Relevance(texto).achadas == []
    ensures Relevance(texto).score == 0 <==> forall p :: p in PalavrasChave ==> !Contains(Lower(texto), p)
  {
    ScanMatches(Lower(texto), PalavrasChave);
    var r := Relevance(texto);
    if r.achadas != [] {
      assert r.achadas[0] in r.achadas;
    }
  }

  /** The matched keywords come out in catalog order, at strictly increasing catalog
      positions. */
  lemma MatchedInCatalogOrder(texto: string)
    ensures IsSubsequence(Relevance(texto).achadas, PalavrasChave)
  {
    ScanInOrder(Lower(texto), PalavrasChave);
  }

  /** A keyword that occurs in the text in any letter case is matched. */
  lemma AnyCaseMatches(texto: string, p: string)
    requires p in PalavrasChave
    requires Contains(texto, p) || Contains(texto, Upper(p))
    ensures p in Relevance(texto).achadas
  {
    CatalogWellFormed();
    LowerOfLowerCase(p);
    if Contains(texto, p) {
      ContainsLower(texto, p);
    } else {
      ContainsLower(texto, Upper(p));
      LowerOfUpper(p);
    }
    MatchedAreTheOccurringKeywords(texto);
  }

  /** Scoring ignores letter case: the text and its lower-cased form score alike. */
  lemma CaseInsensitive(texto: string)
    ensures Relevance(texto) == Relevance(Lower(texto))
  {
    LowerIdempotent(texto);
  }

  /** The empty description scores `(0, [])`. */
  lemma EmptyTextScoresNothing()
    ensures Relevance("") == Relevancia(0, [])
  {
    CatalogWellFormed();
    ScanShortText(Lower(""), PalavrasChave);
  }
}
