/** The `/api/coletar` handler: one pass over a fetched batch, saving each
    relevant row, then one run row in `coletas`. The batch is what
    `buscar_recentes` returned; fetching it is not part of this model. */
module Collection {
  import opened Wrappers
  import opened Normalizer
  import opened Store

  /** What `normalizar` gives for one payload. */
  type Normalized = Result<Option<Licitacao>, NormError>

  /** `normalizar` applied to every payload of the batch, in order. */
  function NormalizeAll(raws: seq<RawPayload>): seq<Normalized> {
    seq(|raws|, i requires 0 <= i < |raws| => Normalizar(raws[i]))
  }

  /** What the loop leaves behind: it ran to the end with a count of new
      rows, or an exception stopped it after some rows were already saved. */
  datatype Outcome =
    | Completed(table: map<string, Licitacao>, relevantes: nat)
    | Failed(table: map<string, Licitacao>, error: NormError)

  /** One iteration of the loop of `coletar`: after an exception nothing
      more happens; otherwise a relevant row is saved and counted when it
      was inserted. */
  function Step(prev: Outcome, o: Normalized): Outcome {
    match prev
    case Failed(_, _) => prev
    case Completed(t1, n) =>
      match o
      case Failure(e) => Failed(t1, e)
      case Success(None) => prev
      case Success(Some(row)) =>
        var (t2, inserted) := InsertOrIgnore(t1, row);
        Completed(t2, if inserted then n + 1 else n)
  }

  /** The loop of `coletar`, starting from table `t`, over the results of
      normalising the batch one payload after the other. */
  function Ingest(t: map<string, Licitacao>, outs: seq<Normalized>): Outcome
    decreases |outs|
  {
    if outs == [] then Completed(t, 0)
    else Step(Ingest(t, outs[..|outs| - 1]), outs[|outs| - 1])
  }

  /** The JSON answer: `{"success": true, "total", "relevantes"}`, or the
      error answer with status 500. */
  datatype Resposta = Ok(total: nat, relevantes: nat) | Erro500(erro: NormError)

  /** `coletar()` over the batch `raws`. */
  method Coletar(db: Database, raws: seq<RawPayload>) returns (resp: Resposta)
    requires db.Valid()
    modifies db
    ensures db.Valid()
    ensures var out := Ingest(old(db.licitacoes), NormalizeAll(raws));
            && db.licitacoes == out.table
            && (out.Completed? ==>
                  resp == Ok(|raws|, out.relevantes) &&
                  db.coletas == old(db.coletas) + [Coleta(|raws|, out.relevantes, Sucesso)])
            && (out.Failed? ==>
                  resp == Erro500(out.error) &&
                  db.coletas == old(db.coletas) + [Coleta(0, 0, Erro)])
  {
    ghost var outs := NormalizeAll(raws);
    var total := |raws|;
    var relevantes := 0;
    var i := 0;
    while i < |raws|
      invariant 0 <= i <= |raws|
      invariant db.Valid()
      invariant Ingest(old(db.licitacoes), outs[..i]) == Completed(db.licitacoes, relevantes)
      invariant db.coletas == old(db.coletas)
    {
      var lic := Normalizar(raws[i]);
      assert lic == outs[i];
      IngestPrefix(old(db.licitacoes), outs, i);
      if lic.Failure? {
        assert Ingest(old(db.licitacoes), outs[..i + 1]) == Failed(db.licitacoes, lic.error);
        FailureIsFinal(old(db.licitacoes), outs, i + 1);
        db.RegistrarColeta(0, 0, Erro);
        resp := Erro500(lic.error);
        return;
      }
      if lic.value.Some? {
        var saved := db.SalvarLicitacao(lic.value.value);
        if saved {
          relevantes := relevantes + 1;
        }
      }
      i := i + 1;
    }
    assert outs[..|raws|] == outs;
    db.RegistrarColeta(total, relevantes, Sucesso);
    resp := Ok(total, relevantes);
  }

  // ---------------------------------------------------------------------------
  // Properties of a run
  // ---------------------------------------------------------------------------

  /** The run over one more payload is one more step. */
  lemma IngestPrefix(t: map<string, Licitacao>, outs: seq<Normalized>, i: nat)
    requires i < |outs|
    ensures Ingest(t, outs[..i + 1]) == Step(Ingest(t, outs[..i]), outs[i])
  {
    assert outs[..i + 1][..i] == outs[..i];
  }

  /** Once a prefix of the batch has raised, the run ends there. */
  lemma {:induction false} FailureIsFinal(t: map<string, Licitacao>, outs: seq<Normalized>, j: nat)
    requires j <= |outs|
    requires Ingest(t, outs[..j]).Failed?
    ensures Ingest(t, outs) == Ingest(t, outs[..j])
    decreases |outs| - j
  {
    if j < |outs| {
      assert outs[..j + 1][..j] == outs[..j];
      FailureIsFinal(t, outs, j + 1);
    } else {
      assert outs[..j] == outs;
    }
  }

  /** A run never drops or changes a stored row, and keeps rows under their
      own `numero`. On completion `relevantes` is the number of rows the run
      added, so it lies between 0 and the batch size. */
  lemma {:induction false} IngestGrowsTable(t: map<string, Licitacao>, outs: seq<Normalized>)
    requires KeyedByNumero(t)
    ensures var out := Ingest(t, outs);
            && t.Keys <= out.table.Keys
            && (forall k :: k in t ==> out.table[k] == t[k])
            && KeyedByNumero(out.table)
            && (out.Completed? ==> out.relevantes <= |outs| && |out.table| == |t| + out.relevantes)
    decreases |outs|
  {
    if outs != [] {
      var init := outs[..|outs| - 1];
      IngestGrowsTable(t, init);
      var prev := Ingest(t, init);
      if prev.Completed? && outs[|outs| - 1].Success? && outs[|outs| - 1].value.Some? {
        InsertKeepsKeys(prev.table, outs[|outs| - 1].value.value);
      }
    }
  }

  /** The run completes exactly when no payload of the batch raises. */
  lemma {:induction false} CompletesIffNoneRaises(t: map<string, Licitacao>, outs: seq<Normalized>)
    ensures Ingest(t, outs).Completed? <==> forall i :: 0 <= i < |outs| ==> outs[i].Success?
    decreases |outs|
  {
    if outs != [] {
      var init := outs[..|outs| - 1];
      CompletesIffNoneRaises(t, init);
      assert forall i :: 0 <= i < |init| ==> init[i] == outs[i];
    }
  }

  /** After a completed run, every relevant payload of the batch has its
      `numero` stored. */
  lemma {:induction false} RelevantRowsStored(t: map<string, Licitacao>, outs: seq<Normalized>)
    requires Ingest(t, outs).Completed?
    ensures forall i :: 0 <= i < |outs| && outs[i].Success? && outs[i].value.Some? ==>
              outs[i].value.value.numero in Ingest(t, outs).table
    decreases |outs|
  {
    if outs != [] {
      var init := outs[..|outs| - 1];
      RelevantRowsStored(t, init);
      assert forall i :: 0 <= i < |init| ==> init[i] == outs[i];
      var prev := Ingest(t, init);
      StepTable(prev, outs[|outs| - 1]);
      assert prev.table.Keys <= Ingest(t, outs).table.Keys;
    }
  }

  /** `row` is what some payload of the batch normalises to. */
  ghost predicate FromBatch(outs: seq<Normalized>, row: Licitacao) {
    exists i :: 0 <= i < |outs| && outs[i] == Success(Some(row))
  }

  /** One step of the run: the last result leaves the table as it was or
      adds the row it carries. */
  lemma StepTable(prev: Outcome, o: Normalized)
    ensures Step(prev, o).table == prev.table ||
            (o.Success? && o.value.Some? && Step(prev, o).table == prev.table[o.value.value.numero := o.value.value])
  {
  }

  /** Every row a run added comes from a relevant payload of the batch. */
  lemma {:induction false} AddedRowsComeFromBatch(t: map<string, Licitacao>, outs: seq<Normalized>)
    ensures forall k :: k in Ingest(t, outs).table && k !in t ==> FromBatch(outs, Ingest(t, outs).table[k])
    decreases |outs|
  {
    if outs != [] {
      var init := outs[..|outs| - 1];
      AddedRowsComeFromBatch(t, init);
      var prev, cur := Ingest(t, init), Ingest(t, outs);
      var last := outs[|outs| - 1];
      StepTable(prev, last);
      forall k | k in cur.table && k !in t
        ensures FromBatch(outs, cur.table[k])
      {
        if k in prev.table && cur.table[k] == prev.table[k] {
          var i :| 0 <= i < |init| && init[i] == Success(Some(prev.table[k]));
          assert outs[i] == init[i];
        } else {
          assert last == Success(Some(cur.table[k]));
        }
      }
    }
  }

  /** A batch that raises nowhere and whose relevant rows are all stored
      already leaves the table as it is. */
  lemma {:induction false} AllStoredAddsNothing(t: map<string, Licitacao>, outs: seq<Normalized>)
    requires forall i :: 0 <= i < |outs| ==> outs[i].Success?
    requires forall i :: 0 <= i < |outs| && outs[i].value.Some? ==> outs[i].value.value.numero in t
    ensures Ingest(t, outs) == Completed(t, 0)
    decreases |outs|
  {
    if outs != [] {
      var init := outs[..|outs| - 1];
      assert forall i :: 0 <= i < |init| ==> init[i] == outs[i];
      AllStoredAddsNothing(t, init);
    }
  }

  /** Re-running the same batch once a run over it has completed adds
      nothing: the second run also completes, with `relevantes == 0` and the
      table unchanged. */
  lemma RerunAddsNothing(t: map<string, Licitacao>, outs: seq<Normalized>)
    requires Ingest(t, outs).Completed?
    ensures Ingest(Ingest(t, outs).table, outs) == Completed(Ingest(t, outs).table, 0)
  {
    CompletesIffNoneRaises(t, outs);
    RelevantRowsStored(t, outs);
    AllStoredAddsNothing(Ingest(t, outs).table, outs);
  }

  /** An exception part-way keeps what was saved before it: the table is
      the one the payloads before the first failing one produced. */
  lemma {:induction false} FailureKeepsEarlierRows(t: map<string, Licitacao>, outs: seq<Normalized>)
    requires Ingest(t, outs).Failed?
    ensures exists i :: 0 <= i < |outs| && outs[i].Failure? &&
              Ingest(t, outs[..i]).Completed? && Ingest(t, outs[..i]).table == Ingest(t, outs).table
    decreases |outs|
  {
    var init := outs[..|outs| - 1];
    if Ingest(t, init).Failed? {
      FailureKeepsEarlierRows(t, init);
      var i :| 0 <= i < |init| && init[i].Failure? &&
               Ingest(t, init[..i]).Completed? && Ingest(t, init[..i]).table == Ingest(t, init).table;
      assert init[..i] == outs[..i];
      assert init[i] == outs[i];
    } else {
      assert outs[..|outs| - 1] == init;
    }
  }
}
