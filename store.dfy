/** The `Database` class: the `licitacoes` table with its `UNIQUE` column
    `numero`, the `coletas` run log, and the listing ordered by publication
    date. The SQLite file is a map from `numero` to row plus a sequence of
    run rows. */
module Store {
  import opened Normalizer

  /** The two `status` texts written to `coletas`: "sucesso" and "erro". */
  datatype Status = Sucesso | Erro

  /** One row of `coletas`. */
  datatype Coleta = Coleta(total: int, relevantes: int, status: Status)

  /** Every row is stored under its own `numero`. */
  ghost predicate KeyedByNumero(t: map<string, Licitacao>) {
    forall k :: k in t ==> t[k].numero == k
  }

  // ---------------------------------------------------------------------------
  // INSERT OR IGNORE on the UNIQUE column `numero`
  // ---------------------------------------------------------------------------

  /** `INSERT OR IGNORE` of `row`: the new table and whether a row was
      inserted (`cur.rowcount > 0`). */
  function InsertOrIgnore(t: map<string, Licitacao>, row: Licitacao): (res: (map<string, Licitacao>, bool))
    ensures res.1 <==> row.numero !in t
    ensures res.0.Keys == t.Keys + {row.numero}
    ensures forall k :: k in t ==> res.0[k] == t[k]
    ensures res.1 ==> res.0[row.numero] == row
    ensures |res.0| == |t| + (if res.1 then 1 else 0)
  {
    if row.numero in t then (t, false) else (t[row.numero := row], true)
  }

  /** Inserting keeps every row under its own `numero`. */
  lemma InsertKeepsKeys(t: map<string, Licitacao>, row: Licitacao)
    requires KeyedByNumero(t)
    ensures KeyedByNumero(InsertOrIgnore(t, row).0)
  {
  }

  /** Saving the same row twice: the second save inserts nothing and leaves
      the table as the first left it. */
  lemma SaveTwice(t: map<string, Licitacao>, row: Licitacao)
    ensures var (t1, _) := InsertOrIgnore(t, row);
            InsertOrIgnore(t1, row) == (t1, false)
  {
  }

  // ---------------------------------------------------------------------------
  // ORDER BY data_publicacao DESC
  // ---------------------------------------------------------------------------

  /** SQLite's BINARY collation on text: lexicographic by code point, a
      proper prefix first. */
  predicate LexLe(a: string, b: string)
    decreases |a|
  {
    a == [] || (b != [] && (a[0] < b[0] || (a[0] == b[0] && LexLe(a[1..], b[1..]))))
  }

  lemma {:induction false} LexLeTotal(a: string, b: string)
    ensures LexLe(a, b) || LexLe(b, a)
    decreases |a|
  {
    if a != [] && b != [] && a[0] == b[0] {
      LexLeTotal(a[1..], b[1..]);
    }
  }

  lemma {:induction false} LexLeTransitive(a: string, b: string, c: string)
    requires LexLe(a, b) && LexLe(b, c)
    ensures LexLe(a, c)
    decreases |a|
  {
    if a != [] && a[0] == b[0] && b[0] == c[0] {
      LexLeTransitive(a[1..], b[1..], c[1..]);
    }
  }

  lemma {:induction false} LexLeAntisymmetric(a: string, b: string)
    requires LexLe(a, b) && LexLe(b, a)
    ensures a == b
    decreases |a|
  {
    if a != [] {
      LexLeAntisymmetric(a[1..], b[1..]);
      assert a == [a[0]] + a[1..] && b == [b[0]] + b[1..];
    }
  }

  /** Newest publication date first. */
  ghost predicate SortedDesc(rows: seq<Licitacao>) {
    forall i, j :: 0 <= i < j < |rows| ==> LexLe(rows[j].dataPublicacao, rows[i].dataPublicacao)
  }

  /** Where a row with date `d` goes in a list sorted newest first: before
      the first row with an older date. */
  function InsertPos(rows: seq<Licitacao>, d: string): (i: nat)
    ensures i <= |rows|
    ensures forall j :: 0 <= j < i ==> LexLe(d, rows[j].dataPublicacao)
    ensures i < |rows| ==> !LexLe(d, rows[i].dataPublicacao)
  {
    if rows == [] || !LexLe(d, rows[0].dataPublicacao) then 0
    else 1 + InsertPos(rows[1..], d)
  }

  /** `rows` with `x` inserted at its place by date. */
  function InsertByDate(rows: seq<Licitacao>, x: Licitacao): seq<Licitacao> {
    var i := InsertPos(rows, x.dataPublicacao);
    rows[..i] + [x] + rows[i..]
  }

  /** Inserting at the date's place keeps the list sorted newest first. */
  lemma InsertByDateSorted(rows: seq<Licitacao>, x: Licitacao)
    requires SortedDesc(rows)
    ensures SortedDesc(InsertByDate(rows, x))
  {
    var d := x.dataPublicacao;
    var i := InsertPos(rows, d);
    var r := InsertByDate(rows, x);
    if i < |rows| {
      LexLeTotal(d, rows[i].dataPublicacao);
      forall j | i < j < |rows| ensures LexLe(rows[j].dataPublicacao, d) {
        LexLeTransitive(rows[j].dataPublicacao, rows[i].dataPublicacao, d);
      }
    }
    forall a, b | 0 <= a < b < |r| ensures LexLe(r[b].dataPublicacao, r[a].dataPublicacao) {
      if a < i && b == i {
      } else if a == i && b > i {
        assert r[b] == rows[b - 1];
      } else if a < i && b > i {
        assert r[b] == rows[b - 1];
      } else if b < i {
      } else {
        assert r[a] == rows[a - 1] && r[b] == rows[b - 1];
      }
    }
  }

  /** The listing built so far: the rows of `t` whose keys are no longer in
      `remaining`, each once, newest first. */
  ghost predicate ListedSoFar(t: map<string, Licitacao>, remaining: set<string>, rows: seq<Licitacao>) {
    && remaining <= t.Keys
    && |rows| + |remaining| == |t|
    && (forall i :: 0 <= i < |rows| ==>
          rows[i].numero in t && rows[i].numero !in remaining && t[rows[i].numero] == rows[i])
    && (forall k :: k in t && k !in remaining ==> t[k] in rows)
    && (forall i, j :: 0 <= i < j < |rows| ==> rows[i].numero != rows[j].numero)
    && SortedDesc(rows)
  }

  /** Where each element of `InsertByDate(rows, x)` comes from. */
  lemma InsertByDateAt(rows: seq<Licitacao>, x: Licitacao)
    ensures var i, next := InsertPos(rows, x.dataPublicacao), InsertByDate(rows, x);
            && |next| == |rows| + 1
            && next[i] == x
            && (forall a :: 0 <= a < i ==> next[a] == rows[a])
            && (forall a :: i < a < |next| ==> next[a] == rows[a - 1])
  {
  }

  /** Moving one key from `remaining` into the listing keeps it a listing. */
  lemma ListOneMore(t: map<string, Licitacao>, remaining: set<string>, rows: seq<Licitacao>, k: string)
    requires KeyedByNumero(t)
    requires ListedSoFar(t, remaining, rows)
    requires k in remaining
    ensures ListedSoFar(t, remaining - {k}, InsertByDate(rows, t[k]))
  {
    InsertByDateSorted(rows, t[k]);
    InsertByDateAt(rows, t[k]);
    assert |remaining - {k}| == |remaining| - 1;
    ListedRowsStored(t, remaining, rows, k);
    ListedRowsDistinct(t, remaining, rows, k);
    ListedRowsCover(t, remaining, rows, k);
  }

  lemma ListedRowsStored(t: map<string, Licitacao>, remaining: set<string>, rows: seq<Licitacao>, k: string)
    requires KeyedByNumero(t)
    requires ListedSoFar(t, remaining, rows)
    requires k in remaining
    ensures var next := InsertByDate(rows, t[k]);
            forall a :: 0 <= a < |next| ==>
              next[a].numero in t && next[a].numero !in remaining - {k} && t[next[a].numero] == next[a]
  {
    InsertByDateAt(rows, t[k]);
  }

  lemma ListedRowsDistinct(t: map<string, Licitacao>, remaining: set<string>, rows: seq<Licitacao>, k: string)
    requires KeyedByNumero(t)
    requires ListedSoFar(t, remaining, rows)
    requires k in remaining
    ensures var next := InsertByDate(rows, t[k]);
            forall a, b :: 0 <= a < b < |next| ==> next[a].numero != next[b].numero
  {
    InsertByDateAt(rows, t[k]);
    var i, next := InsertPos(rows, t[k].dataPublicacao), InsertByDate(rows, t[k]);
    forall a, b | 0 <= a < b < |next| ensures next[a].numero != next[b].numero {
      if a < i && b > i {
        assert next[b] == rows[b - 1];
      } else if a > i {
        assert next[a] == rows[a - 1] && next[b] == rows[b - 1];
      }
    }
  }

  lemma ListedRowsCover(t: map<string, Licitacao>, remaining: set<string>, rows: seq<Licitacao>, k: string)
    requires KeyedByNumero(t)
    requires ListedSoFar(t, remaining, rows)
    requires k in remaining
    ensures var next := InsertByDate(rows, t[k]);
            forall k' :: k' in t && k' !in remaining - {k} ==> t[k'] in next
  {
    InsertByDateAt(rows, t[k]);
    var i, next := InsertPos(rows, t[k].dataPublicacao), InsertByDate(rows, t[k]);
    forall k' | k' in t && k' !in remaining - {k} ensures t[k'] in next {
      if k' != k {
        var j :| 0 <= j < |rows| && rows[j] == t[k'];
        if j < i {
          assert next[j] == rows[j];
        } else {
          assert next[j + 1] == rows[j];
        }
      } else {
        assert next[i] == t[k];
      }
    }
  }

  // ---------------------------------------------------------------------------
  // The database
  // ---------------------------------------------------------------------------

  class Database {
    /** `licitacoes`, keyed by its UNIQUE column `numero`. */
    var licitacoes: map<string, Licitacao>
    /** `coletas`, in insertion order. */
    var coletas: seq<Coleta>

    ghost predicate Valid()
      reads this
    {
      KeyedByNumero(licitacoes)
    }

    /** `Database()` on a fresh database file: both tables empty. */
    constructor ()
      ensures Valid()
      ensures licitacoes == map[] && coletas == []
    {
      licitacoes := map[];
      coletas := [];
    }

    /** `salvar_licitacao(data)`: `INSERT OR IGNORE`, answering whether a row
        was inserted. The run log is not touched. */
    method SalvarLicitacao(data: Licitacao) returns (inserted: bool)
      requires Valid()
      modifies this`licitacoes
      ensures Valid()
      ensures (licitacoes, inserted) == InsertOrIgnore(old(licitacoes), data)
    {
      inserted := data.numero !in licitacoes;
      if inserted {
        licitacoes := licitacoes[data.numero := data];
      }
    }

    /** `registrar_coleta(total, relevantes, status)`: appends one run row. */
    method RegistrarColeta(total: int, relevantes: int, status: Status)
      modifies this`coletas
      ensures coletas == old(coletas) + [Coleta(total, relevantes, status)]
    {
      coletas := coletas + [Coleta(total, relevantes, status)];
    }

    /** `listar_licitacoes()`: every stored row once, newest publication
        date first. */
    method ListarLicitacoes() returns (rows: seq<Licitacao>)
      requires Valid()
      ensures |rows| == |licitacoes|
      ensures forall i :: 0 <= i < |rows| ==>
                rows[i].numero in licitacoes && licitacoes[rows[i].numero] == rows[i]
      ensures forall k :: k in licitacoes ==> licitacoes[k] in rows
      ensures forall i, j :: 0 <= i < j < |rows| ==> rows[i].numero != rows[j].numero
      ensures SortedDesc(rows)
    {
      var remaining := licitacoes.Keys;
      rows := [];
      while remaining != {}
        invariant ListedSoFar(licitacoes, remaining, rows)
        decreases |remaining|
      {
        var k :| k in remaining;
        ListOneMore(licitacoes, remaining, rows, k);
        rows := InsertByDate(rows, licitacoes[k]);
        remaining := remaining - {k};
      }
    }
  }
}
