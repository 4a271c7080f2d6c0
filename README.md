# PNCP procurement monitor: collection pipeline

A Dafny model of the collection pipeline in `app.py` of the PNCP monitor. The
monitor is a small Flask service. It fetches recent procurement notices from
Brazil's public procurement portal (PNCP) and keeps those that mention 3D
printing. The model covers four parts of that file:

- **Keyword catalog and scorer** (`PALAVRAS_CHAVE`, `calcular_relevancia`), in module `Scoring`.
  - The text is lower-cased.
  - Each catalog keyword is tested by substring containment.
  - A hit weighs 5 when the keyword contains "impressora", and 2 otherwise.
  - The scorer's loop is the method `CalcularRelevancia`. It is proved equal to the recursive specification `Relevance`, which the lemmas describe.
- **Normaliser** (`normalizar`), in module `Normalizer`.
  - The raw JSON payload is a datatype. Each key is `Absent`, `Null` or `Present(v)`, which is how `dict.get` sees it.
  - The function returns `Success(None)` for an irrelevant payload and `Success(Some(row))` for a relevant one.
  - It returns `Failure(e)` exactly where Python would raise on a JSON `null`.
- **Database** (`Database`), in module `Store`.
  - A class holds the `licitacoes` table as a map from `numero` to row, and the `coletas` log as a sequence.
  - `SalvarLicitacao` is `INSERT OR IGNORE` on the unique `numero`.
  - `RegistrarColeta` appends one row to the log.
  - `ListarLicitacoes` lists every row, newest `data_publicacao` first. The order uses SQLite's binary text collation.
- **Collection run** (`coletar`), in module `Collection`.
  - The method `Coletar` runs over a batch of payloads and saves each relevant row. It counts the rows actually inserted, then appends exactly one run row.
  - The recursive function `Ingest` specifies the loop, one `Step` per payload.

The shared string operations are in module `Text`: ASCII lower-casing, Python's `in` on strings, `", ".join` with the split that undoes it, and the decimal text of integers. `Option` and `Result` are in module `Wrappers`.

Some behaviours of `app.py` are easy to miss, and the model keeps them as written:

- There is no status classifier. `situacao` is always "aberta".
- There is no multi-region or multi-page crawl. One page is fetched, and here it is an input.
- Re-ingesting a known `numero` is ignored. No merge takes place.
- There are two weights (5 and 2), not three tiers.
- A payload missing both year and sequential number is not rejected. It gets the key "None-None", shared by every such payload, so only the first of them is ever stored (`MissingIdentityShared`). A payload missing only one of them gets a key such as "None-17" or "2024-None".

## Model

| member | source | states |
|---|---|---|
| `Scoring.CalcularRelevancia` | app.py:150-160 | The loop over the catalog returns the same score and hit list as the recursive specification `Relevance` of the lower-cased text. |
| `Scoring.ScoreIsSumOfWeights` | app.py:152-158 | The score is the sum, over the matched keywords, of 5 for a keyword containing "impressora" and 2 for any other keyword. |
| `Scoring.MatchedAreTheOccurringKeywords` | app.py:151-157 | A keyword is in the hit list if and only if it is in the catalog and occurs in the lower-cased text. The score is 0 if and only if the hit list is empty, and if and only if no catalog keyword occurs. |
| `Scoring.MatchedInCatalogOrder` | app.py:155-157 | The hit list is a subsequence of `PALAVRAS_CHAVE`: hits appear in catalog order, at strictly increasing catalog positions. |
| `Scoring.CaseInsensitive` | app.py:151 | Scoring a text and scoring its lower-cased form give the same result. |
| `Scoring.AnyCaseMatches` | app.py:151-157 | A catalog keyword that occurs in the text, in lower case or in upper case, is among the hits. |
| `Scoring.EmptyTextScoresNothing` | app.py:150-160 | The empty description scores `(0, [])`. |
| `Scoring.CatalogWellFormed` | app.py:22-28 | Every catalog keyword is non-empty and lower-case, and none contains a comma. |
| `Text.Lower` | app.py:151 | Lower-casing keeps the length and maps each character through ASCII lower-casing. |
| `Text.ContainsIffOccurs` | app.py:156 | The recursive substring test holds if and only if the pattern occurs at some index of the text. |
| `Text.ContainsLower` | app.py:151-156 | An occurrence of a pattern in the text is also an occurrence after both are lower-cased. |
| `Text.SplitJoin` | app.py:199 | Splitting a `", "`-joined non-empty list of comma-free parts at ", " gives the list back. |
| `Text.IntTextInjective` | app.py:190 | Different integers render to different decimal texts. |
| `Normalizer.Normalizar` | app.py:182-200 | The result is `Failure` if and only if the description is null, or the description scores above 0 and `orgaoEntidade` or `dataPublicacaoPncp` is null. For a relevant description, a null `orgaoEntidade` raises, and otherwise a null `dataPublicacaoPncp` raises. It is `Success(None)` if and only if the description (`""` when absent) scores 0. A produced row has that positive score and the matches joined by ", ". Its `numero` is year + "-" + sequential number, its `situacao` is "aberta" and its `valor` is 0 when absent. Its date is a prefix of the raw date, of length min(10, length), and `""` when absent. The other columns are copied. |
| `Normalizer.Take10` | app.py:196 | The publication date is cut to a prefix of at most 10 characters, and is kept whole when it is no longer than that. |
| `Normalizer.PalavrasDecode` | app.py:199 | The `palavras` column of a produced row splits back into the matched keywords, in catalog order. |
| `Normalizer.NumeroIdentifies` | app.py:190 | For non-negative years, two payloads get the same `numero` if and only if they have the same year and the same sequential number. |
| `Normalizer.MissingIdentityShared` | app.py:190 | Every payload missing both year and sequential number gets the same key, "None-None". |
| `Store.InsertOrIgnore` | app.py:93-111 | The save inserts if and only if `numero` is not yet stored. Existing rows are never changed. The keys grow by exactly `numero`, and the table grows by one row exactly when the save inserts. |
| `Store.InsertKeepsKeys` | app.py:60 | After a save, every row is still stored under its own `numero` (the UNIQUE column). |
| `Store.SaveTwice` | app.py:93-111 | Saving the same row twice leaves the table as the first save left it, and the second save reports no insertion. |
| `Store.LexLeTotal` | app.py:121 | The text order used for `ORDER BY data_publicacao` is total. |
| `Store.LexLeTransitive` | app.py:121 | The text order used for `ORDER BY data_publicacao` is transitive. |
| `Store.InsertByDateSorted` | app.py:121 | Placing a row before the first row with an older date keeps a listing sorted newest first. |
| `Store.Database.constructor` | app.py:45-86 | A fresh database file has an empty `licitacoes` table and an empty `coletas` log. |
| `Store.Database.SalvarLicitacao` | app.py:89-116 | `salvar_licitacao` changes the table exactly as `InsertOrIgnore` does and returns its inserted flag. It keeps every row under its own `numero` and does not touch the run log. |
| `Store.Database.RegistrarColeta` | app.py:126-134 | `registrar_coleta` appends exactly one `(total, relevantes, status)` row to the run log. |
| `Store.Database.ListarLicitacoes` | app.py:118-124 | The listing holds every stored row exactly once, and nothing else, sorted by `data_publicacao` from newest to oldest. |
| `Collection.Coletar` | app.py:212-234 | The table ends as `Ingest` says. On completion the answer is `(len(raws), relevantes)` and exactly one `(len(raws), relevantes, "sucesso")` row is appended. On an exception exactly one `(0, 0, "erro")` row is appended, and the rows saved before the exception stay saved. |
| `Collection.IngestGrowsTable` | app.py:216-225 | A run never removes or changes a stored row. On completion, `relevantes` equals the number of rows added, so `0 <= relevantes <= total`. |
| `Collection.CompletesIffNoneRaises` | app.py:214-234 | A run completes if and only if no payload of the batch raises during normalisation. |
| `Collection.RelevantRowsStored` | app.py:220-223 | After a completed run, the `numero` of every relevant payload of the batch is stored. |
| `Collection.AddedRowsComeFromBatch` | app.py:220-223 | Every row a run added is the normalised row of some relevant payload of the batch. |
| `Collection.RerunAddsNothing` | app.py:220-225 | Running a completed batch again completes with `relevantes == 0` and leaves the table unchanged. |
| `Collection.FailureIsFinal` | app.py:214-233 | Once a payload raises, the rest of the batch has no effect. |
| `Collection.FailureKeepsEarlierRows` | app.py:220-233 | After an exception, the table is the one the payloads before the first failing payload produced. |

## Left out

- The Flask app, its routes, CORS and JSON serialisation (app.py:34-35, 208-238, 244-247) are left out. `coletar` is a method over a given batch, and its JSON answer is the datatype `Resposta`.
- `buscar_recentes` (app.py:162-180) is left out: it is a network call that reads the clock. Its result is the `raws` parameter of `Coletar`. It turns every network error into an empty batch, so such a run is logged as `(0, 0, "sucesso")`.
- Concurrent runs are left out. The Flask development server serves requests on threads, and each save opens its own connection. Two overlapping `/api/coletar` calls can therefore interleave their inserts. `Coletar` and `IngestGrowsTable` describe a run that has the table to itself.
- The SQLite connection, the `CREATE TABLE` statements and logging are left out. So are the columns the database fills in itself: `id`, `visualizado` (always its default 0 here) and `criado_em` (a clock).
- The `except` branch of `salvar_licitacao` (app.py:112-114) is left out, and so is a failure of `registrar_coleta`: the model has no database errors.
- Text.Lower: Python's `str.lower()` folds all of Unicode. The model folds only ASCII 'A'..'Z', so an accented capital in a description is not lower-cased here.
- Normalizer.Normalizar: JSON values of an unexpected type are left out. For example, a number where `objetoCompra` should be text would make Python raise. Only missing keys, `null` and values of the expected type are modelled.
- `valorTotalEstimado` is stored as a SQLite REAL. The model keeps it as an integer and never computes with it.
- `anoCompra` and `sequencialCompra` are JSON integers in the model. A string or float value would be rendered by the f-string differently, and that is not modelled.
- Store.Database.ListarLicitacoes: SQLite leaves the order of rows with equal `data_publicacao` unspecified. The contract fixes no order among them.
- Store.Database.constructor: models a fresh database file. The other methods hold for any table that keeps each row under its own `numero`.
- testar_sistema.py, configurar_coleta_auto.py and coletar_automatico.py are left out. They check the environment, install a crontab and post to the local server over HTTP, which is environment I/O only.
