/** The raw payload of the procurement API and `PNCPCollector.normalizar`,
    which turns one payload into a table row or drops it. */
module Normalizer {
  import opened Wrappers
  import opened Text
  import opened Scoring

  /** One key of the JSON object as `dict.get` sees it: missing, JSON `null`
      (Python `None`), or a value. */
  datatype Field<+T> = Absent | Null | Present(value: T)

  /** The `orgaoEntidade` sub-object; only `razaoSocial` is read. */
  datatype Orgao = Orgao(razaoSocial: Field<string>)

  /** The keys of one raw procurement payload that the collector reads. */
  datatype RawPayload = RawPayload(
    objetoCompra: Field<string>,
    anoCompra: Field<int>,
    sequencialCompra: Field<int>,
    orgaoEntidade: Field<Orgao>,
    modalidadeNome: Field<string>,
    valorTotalEstimado: Field<int>,
    dataPublicacaoPncp: Field<string>,
    linkSistemaOrigem: Field<string>)

  /** The canonical row handed to the database (the dict built by `normalizar`).
      `None` in the source is `Option.None` here. */
  datatype Licitacao = Licitacao(
    numero: string,
    orgao: Option<string>,
    objeto: string,
    modalidade: Option<string>,
    valor: Option<int>,
    situacao: string,
    dataPublicacao: string,
    link: Option<string>,
    score: nat,
    palavras: string)

  /** The Python exception `normalizar` raises on a JSON `null` where it
      expects a string or an object. */
  datatype NormError =
    | ObjetoNulo   // `None.lower()` in the scorer
    | OrgaoNulo    // `None.get("razaoSocial")`
    | DataNula     // `None[:10]`

  /** `raw.get(key)` for an optional text value. */
  function GetOpt<T>(f: Field<T>): Option<T> {
    if f.Present? then Some(f.value) else None
  }

  /** How an f-string renders `raw.get(key)` for an integer key: its decimal
      text, or "None" when the key is missing or null. */
  function FormatField(f: Field<int>): string {
    if f.Present? then IntText(f.value) else "None"
  }

  /** `raw.get("objetoCompra", "")`, when it is not null. */
  function Descricao(raw: RawPayload): string
    requires !raw.objetoCompra.Null?
  {
    if raw.objetoCompra.Present? then raw.objetoCompra.value else ""
  }

  /** `f'{raw.get("anoCompra")}-{raw.get("sequencialCompra")}'`. */
  function Numero(raw: RawPayload): string {
    FormatField(raw.anoCompra) + "-" + FormatField(raw.sequencialCompra)
  }

  /** The first (up to) 10 characters, Python's `s[:10]`. */
  function Take10(s: string): (r: string)
    ensures |r| <= 10 && r <= s
    ensures |s| <= 10 ==> r == s
    ensures |s| >= 10 ==> |r| == 10
  {
    if |s| <= 10 then s else s[..10]
  }

  /** `normalizar(raw)`: `Success(None)` when the description is irrelevant,
      `Success(Some(row))` for a relevant one, `Failure(e)` where Python raises.
      The description is scored before any other key is read, so a null
      organisation or date only raises for a relevant payload. */
  function Normalizar(raw: RawPayload): (r: Result<Option<Licitacao>, NormError>)
    ensures raw.objetoCompra.Null? <==> r == Failure(ObjetoNulo)
    ensures !raw.objetoCompra.Null? ==>
              (r == Success(None) <==> Relevance(Descricao(raw)).score == 0)
    ensures r.Failure? && !raw.objetoCompra.Null? ==>
              Relevance(Descricao(raw)).score > 0 &&
              (raw.orgaoEntidade.Null? || raw.dataPublicacaoPncp.Null?)
    ensures !raw.objetoCompra.Null? && Relevance(Descricao(raw)).score > 0 ==>
              && (raw.orgaoEntidade.Null? <==> r == Failure(OrgaoNulo))
              && (!raw.orgaoEntidade.Null? && raw.dataPublicacaoPncp.Null? <==> r == Failure(DataNula))
    ensures r.Success? && r.value.Some? ==> IsRowOf(r.value.value, raw)
  {
    if raw.objetoCompra.Null? then Failure(ObjetoNulo)
    else
      var objeto := Descricao(raw);
      var rel := Relevance(objeto);
      if rel.score == 0 then Success(None)
      else if raw.orgaoEntidade.Null? then Failure(OrgaoNulo)
      else if raw.dataPublicacaoPncp.Null? then Failure(DataNula)
      else
        Success(Some(Licitacao(
          numero := Numero(raw),
          orgao := if raw.orgaoEntidade.Present? then GetOpt(raw.orgaoEntidade.value.razaoSocial) else None,
          objeto := objeto,
          modalidade := GetOpt(raw.modalidadeNome),
          valor := match raw.valorTotalEstimado
                   case Absent => Some(0)
                   case Null => None
                   case Present(v) => Some(v),
          situacao := "aberta",
          dataPublicacao := Take10(if raw.dataPublicacaoPncp.Present? then raw.dataPublicacaoPncp.value else ""),
          link := GetOpt(raw.linkSistemaOrigem),
          score := rel.score,
          palavras := Join(rel.achadas, ", "))))
  }

  /** What a row built from `raw` promises about each of its columns. */
  ghost predicate IsRowOf(row: Licitacao, raw: RawPayload) {
    && !raw.objetoCompra.Null?
    && !raw.orgaoEntidade.Null?
    && !raw.dataPublicacaoPncp.Null?
    && row.objeto == Descricao(raw)
    && row.score == Relevance(Descricao(raw)).score
    && row.score > 0
    && row.palavras == Join(Relevance(Descricao(raw)).achadas, ", ")
    && row.numero == FormatField(raw.anoCompra) + "-" + FormatField(raw.sequencialCompra)
    && row.situacao == "aberta"
    && (raw.orgaoEntidade.Absent? ==> row.orgao == None)
    && (raw.orgaoEntidade.Present? ==>
          row.orgao == if raw.orgaoEntidade.value.razaoSocial.Present?
                       then Some(raw.orgaoEntidade.value.razaoSocial.value) else None)
    && row.modalidade == (if raw.modalidadeNome.Present? then Some(raw.modalidadeNome.value) else None)
    && row.link == (if raw.linkSistemaOrigem.Present? then Some(raw.linkSistemaOrigem.value) else None)
    && (raw.valorTotalEstimado.Absent? ==> row.valor == Some(0))
    && (raw.valorTotalEstimado.Null? ==> row.valor == None)
    && (raw.valorTotalEstimado.Present? ==> row.valor == Some(raw.valorTotalEstimado.value))
    && (raw.dataPublicacaoPncp.Absent? ==> row.dataPublicacao == "")
    && (raw.dataPublicacaoPncp.Present? ==>
          var d := raw.dataPublicacaoPncp.value;
          row.dataPublicacao <= d && |row.dataPublicacao| == if |d| < 10 then |d| else 10)
  }

  // ---------------------------------------------------------------------------
  // Properties of the row
  // ---------------------------------------------------------------------------

  /** The `palavras` column lists the matched keywords, and splitting it at
      ", " gives them back in catalog order. */
  lemma PalavrasDecode(raw: RawPayload, row: Licitacao)
    requires Normalizar(raw) == Success(Some(row))
    ensures SplitCommaSpace(row.palavras) == Relevance(row.objeto).achadas
  {
    var rel := Relevance(row.objeto);
    MatchedAreTheOccurringKeywords(row.objeto);
    CatalogWellFormed();
    SplitJoin(rel.achadas);
  }

  /** Two payloads with a present, non-negative year get the same `numero`
      only when they agree on year and sequential number: the key identifies
      the procurement. */
  lemma NumeroIdentifies(a: RawPayload, b: RawPayload)
    requires a.anoCompra.Present? && a.anoCompra.value >= 0
    requires b.anoCompra.Present? && b.anoCompra.value >= 0
    requires a.sequencialCompra.Present? && b.sequencialCompra.Present?
    ensures Numero(a) == Numero(b) <==>
              a.anoCompra == b.anoCompra && a.sequencialCompra == b.sequencialCompra
  {
    if Numero(a) == Numero(b) {
      var ya, yb := NatText(a.anoCompra.value), NatText(b.anoCompra.value);
      var ra, rb := "-" + IntText(a.sequencialCompra.value), "-" + IntText(b.sequencialCompra.value);
      assert Numero(a) == ya + ra && Numero(b) == yb + rb;
      assert '-' !in ya;
      assert '-' !in yb;
      FirstIndexAfter(ya, ra, '-');
      FirstIndexAfter(yb, rb, '-');
      assert ya == Numero(a)[..|ya|] == yb;
      assert ra == Numero(a)[|ya|..] == rb;
      assert IntText(a.sequencialCompra.value) == ra[1..] == rb[1..] == IntText(b.sequencialCompra.value);
      IntTextInjective(a.anoCompra.value, b.anoCompra.value);
      IntTextInjective(a.sequencialCompra.value, b.sequencialCompra.value);
    }
  }

  /** A payload without year and sequential number still gets a key,
      "None-None", shared by every such payload. */
  lemma MissingIdentityShared(a: RawPayload, b: RawPayload)
    requires !a.anoCompra.Present? && !a.sequencialCompra.Present?
    requires !b.anoCompra.Present? && !b.sequencialCompra.Present?
    ensures Numero(a) == Numero(b) == "None-None"
  {
  }
}
