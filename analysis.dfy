/**
 * `analyze_evidence_comparison`, `analyze_survei_comparison` and
 * `analyze_impact` up to the point where they call the API: the guards,
 * the subject row, the benchmark cascade and the values put side by side.
 * The prompt wording is left out; the API answer is `Api.Call`.
 */
module Analysis {
  import opened Values
  import opened Search
  import opened Hsh
  import opened Benchmark
  import opened Tables
  import opened Api

  const FungsiColumn: string := "Fungsi"
  const HshColumn: string := "HSH"
  /** The column the loader fills with `normalize_hsh` of each benchmark row's first cell. */
  const KeyColumn: string := "HSH_normalized"
  const NoBenchmark: string := "Benchmark tidak tersedia"
  const NoImpactMessage: string :=
    "Analisis impact tidak dapat dilakukan karena tidak ada file impact to business yang diupload."

  /** The nine evidence columns, in the order the comparison lists them. */
  const EvidenceColumns: seq<string> := [
    "Strategi Budaya", "Monitoring & Evaluasi", "Sosialisasi & Partisipasi",
    "Pelaporan Bulanan", "Apresiasi Pelanggan", "Pemahaman Program",
    "Reward & Consequences", "SK AoC", "Impact to Business"]

  /** The survey columns of the subject row and of the benchmark row, in the order the comparison lists them. */
  const SurveyColumns: seq<string> := ["Skor Survei", "SKOR PEKERJA", "SKOR MITRA KERJA"]
  const SurveyBenchmarkColumns: seq<string> := ["Skor Total", "Skor Pekerja", "Skor Mitra"]

  /** The evidence values sit from column 3 of the subject row and from column 1 of the benchmark row. */
  const SubjectOffset: nat := 3
  const BenchmarkOffset: nat := 1

  /** Which of the two comparisons runs. */
  datatype Kind = Evidence | Survey

  /** The data the comparison prompt is built from. */
  datatype Comparison = Comparison(
    subjectHsh: string,
    benchmarkHsh: string,
    subjectValues: seq<(string, string)>,
    benchmarkValues: seq<(string, string)>,
    step: Step)

  /**
   * How a comparison ends before the API call: a not-found message, a
   * caught exception (given by its `str(e)`), or the data for the prompt.
   */
  datatype Prepared = NotFound(message: string) | Failed(error: string) | Ready(comparison: Comparison)

  /** The message when no subject row is found: it quotes the selected function, after a prefix that depends on the analysis. */
  function NotFoundMessage(kind: Kind, fungsi: string): (m: string)
    ensures var p := if kind == Evidence then 13 else 26;
      && |m| > p + |fungsi|
      && m[p - 1] == '\'' && m[p..p + |fungsi|] == fungsi && m[p + |fungsi|] == '\''
      && m[..5] == "Data " && m[|m| - 1] == '.'
    ensures m[..if kind == Evidence then 13 else 26] == if kind == Evidence then "Data fungsi '" else "Data survei untuk fungsi '"
  {
    match kind
    case Evidence =>
      var pre, post := "Data fungsi '", "' tidak ditemukan dalam file SKOR_TOTAL_ALL.";
      assert (pre + fungsi + post)[|pre| + |fungsi|] == post[0];
      pre + fungsi + post
    case Survey =>
      var pre, post := "Data survei untuk fungsi '", "' tidak ditemukan.";
      assert (pre + fungsi + post)[|pre| + |fungsi|] == post[0];
      pre + fungsi + post
  }

  /** The message of a caught exception: the analysis' prefix, then `str(e)`. */
  function ErrorMessage(kind: Kind, error: string): (m: string)
    ensures |m| >= 21 + |error| && m[..21] == "Error dalam analisis " && m[|m| - |error|..] == error
    ensures m[..|m| - |error|] == if kind == Evidence then "Error dalam analisis evidence: " else "Error dalam analisis survei: "
  {
    match kind
    case Evidence => "Error dalam analisis evidence: " + error
    case Survey => "Error dalam analisis survei: " + error
  }

  /** `str(KeyError(name))`, what indexing a frame by an absent column raises. */
  function MissingColumn(name: string): string {
    "'" + name + "'"
  }

  /** A benchmark row's key. The loader stores a string in every row, so a missing value is read as the empty key. */
  function KeyText(c: Cell): string {
    match c
    case Missing => ""
    case Text(s) => s
  }

  /** The key column of the benchmark table, one key per row in table order. */
  function BenchmarkKeys(bench: Table, kc: nat): (keys: seq<string>)
    requires kc < |bench.columns|
    ensures |keys| == |bench.rows|
    ensures forall r :: 0 <= r < |bench.rows| ==> keys[r] == KeyText(bench.rows[r][kc])
  {
    seq(|bench.rows|, r requires 0 <= r < |bench.rows| => KeyText(bench.rows[r][kc]))
  }

  /** `fungsi_data.iloc[0]['HSH']` when the column exists, else the selected HSH. */
  function SubjectHsh(fd: Table, selectedHsh: string): (c: Cell)
    requires fd.rows != []
    ensures HshColumn !in fd.columns ==> c == Text(selectedHsh)
    ensures forall j :: 0 <= j < |fd.columns| && fd.columns[j] == HshColumn ==> c == fd.rows[0][j]
  {
    match ColumnIndex(fd, HshColumn)
    case None => Text(selectedHsh)
    case Some(h) =>
      assert forall j :: 0 <= j < |fd.columns| && fd.columns[j] == HshColumn ==> j == h;
      fd.rows[0][h]
  }

  /** `benchmark_data.iloc[0, 0]`, or the placeholder when the selection is empty. */
  function BenchmarkName(bd: Table): (s: string)
    ensures IsEmpty(bd) ==> s == NoBenchmark
  {
    if IsEmpty(bd) then NoBenchmark else Shown(bd.rows[0][0])
  }

  /** The values of the subject row put in the comparison. */
  function SubjectValues(kind: Kind, fd: Table): (vs: seq<(string, string)>)
    ensures kind == Evidence ==> (|vs| == |EvidenceColumns| &&
      forall i :: 0 <= i < |EvidenceColumns| ==> vs[i] == (EvidenceColumns[i], SafeGetAt(fd, 0, SubjectOffset + i)))
    ensures kind == Survey ==> (|vs| == |SurveyColumns| &&
      forall i :: 0 <= i < |SurveyColumns| ==> vs[i] == (SurveyColumns[i], SafeGetNamed(fd, 0, SurveyColumns[i], NotAvailable)))
  {
    match kind
    case Evidence => PositionalValues(fd, 0, SubjectOffset, EvidenceColumns)
    case Survey => NamedValues(fd, 0, SurveyColumns)
  }

  /** The values of the benchmark row put in the comparison. */
  function BenchmarkValues(kind: Kind, bd: Table): (vs: seq<(string, string)>)
    ensures kind == Evidence ==> (|vs| == |EvidenceColumns| &&
      forall i :: 0 <= i < |EvidenceColumns| ==> vs[i] == (EvidenceColumns[i], SafeGetAt(bd, 0, BenchmarkOffset + i)))
    ensures kind == Survey ==> (|vs| == |SurveyBenchmarkColumns| &&
      forall i :: 0 <= i < |SurveyBenchmarkColumns| ==>
        vs[i] == (SurveyBenchmarkColumns[i], SafeGetNamed(bd, 0, SurveyBenchmarkColumns[i], NotAvailable)))
  {
    match kind
    case Evidence => PositionalValues(bd, 0, BenchmarkOffset, EvidenceColumns)
    case Survey => NamedValues(bd, 0, SurveyBenchmarkColumns)
  }

  /**
   * The data compared once the subject rows `fd` are found: the benchmark
   * rows are chosen by the cascade on the normalised HSH of the first
   * subject row.
   */
  function Compare(kind: Kind, fd: Table, bench: Table, kc: nat, selectedHsh: string): (c: Comparison)
    requires fd.rows != [] && kc < |bench.columns|
    ensures c.subjectHsh == Shown(SubjectHsh(fd, selectedHsh))
    ensures |c.subjectValues| == |c.benchmarkValues| == if kind == Evidence then |EvidenceColumns| else 3
    ensures kind == Evidence ==> forall i :: 0 <= i < |EvidenceColumns| ==>
      && c.subjectValues[i] == (EvidenceColumns[i], SafeGetAt(fd, 0, SubjectOffset + i))
      && c.benchmarkValues[i].0 == EvidenceColumns[i]
    ensures kind == Survey ==> forall i :: 0 <= i < |SurveyColumns| ==>
      && c.subjectValues[i] == (SurveyColumns[i], SafeGetNamed(fd, 0, SurveyColumns[i], NotAvailable))
      && c.benchmarkValues[i].0 == SurveyBenchmarkColumns[i]
  {
    var hsh := SubjectHsh(fd, selectedHsh);
    var sel := SelectRows(BenchmarkKeys(bench, kc), Normalize(hsh));
    var bd := Select(bench, sel.rows);
    Comparison(Shown(hsh), BenchmarkName(bd), SubjectValues(kind, fd), BenchmarkValues(kind, bd), sel.step)
  }

  /**
   * The comparison up to the API call: the subject rows are those whose
   * `Fungsi` is the selected function, and a column indexed by name that
   * does not exist raises `KeyError`.
   */
  function Prepare(kind: Kind, subject: Table, bench: Table, selectedHsh: string, selectedFungsi: string): (p: Prepared)
    ensures p.NotFound? ==> p.message == NotFoundMessage(kind, selectedFungsi)
  {
    match ColumnIndex(subject, FungsiColumn)
    case None => Failed(MissingColumn(FungsiColumn))
    case Some(fc) =>
      var matches := RowsWhere(subject, fc, selectedFungsi);
      if matches == [] then NotFound(NotFoundMessage(kind, selectedFungsi))
      else
        match ColumnIndex(bench, KeyColumn)
        case None => Failed(MissingColumn(KeyColumn))
        case Some(kc) => Ready(Compare(kind, Select(subject, matches), bench, kc, selectedHsh))
  }

  /** The subject table has a `Fungsi` column and no row holds the selected function. */
  predicate NoSubjectRow(subject: Table, selectedFungsi: string) {
    exists fc :: 0 <= fc < |subject.columns| && subject.columns[fc] == FungsiColumn && Absent(subject, fc, selectedFungsi)
  }

  /**
   * The string the analysis returns: the `KeyError` for a missing `Fungsi`
   * column, the not-found message, the `KeyError` for a missing key column,
   * or else the API's answer.
   */
  function Section(kind: Kind, subject: Table, bench: Table, selectedHsh: string, selectedFungsi: string, env: nat -> Outcome): (s: string)
    ensures FungsiColumn !in subject.columns ==> s == ErrorMessage(kind, MissingColumn(FungsiColumn))
    ensures NoSubjectRow(subject, selectedFungsi) ==> s == NotFoundMessage(kind, selectedFungsi)
    ensures FungsiColumn in subject.columns && !NoSubjectRow(subject, selectedFungsi) ==>
      s == if KeyColumn in bench.columns then Call(env, DefaultMaxRetries).text else ErrorMessage(kind, MissingColumn(KeyColumn))
  {
    NotFoundIff(kind, subject, bench, selectedHsh, selectedFungsi);
    FailedIff(kind, subject, bench, selectedHsh, selectedFungsi);
    match Prepare(kind, subject, bench, selectedHsh, selectedFungsi)
    case NotFound(m) => m
    case Failed(e) => ErrorMessage(kind, e)
    case Ready(_) => Call(env, DefaultMaxRetries).text
  }

  /** `analyze_impact`: without impact content it returns its message, otherwise the API's answer. */
  function ImpactSection(impactContent: Option<string>, env: nat -> Outcome): (s: string)
    ensures impactContent.None? ==> s == NoImpactMessage
    ensures impactContent.Some? ==> s == Call(env, DefaultMaxRetries).text
  {
    match impactContent
    case None => NoImpactMessage
    case Some(_) => Call(env, DefaultMaxRetries).text
  }

  /** The analysis as the source runs it: mask the subject rows, run the cascade, collect the values. */
  method Analyze(kind: Kind, subject: Table, bench: Table, selectedHsh: string, selectedFungsi: string) returns (p: Prepared)
    ensures p == Prepare(kind, subject, bench, selectedHsh, selectedFungsi)
  {
    var fci := ColumnIndex(subject, FungsiColumn);
    if fci.None? {
      return Failed(MissingColumn(FungsiColumn));
    }
    var fc := fci.value;
    var col := Column(subject, fc);
    var matches := MaskRows(col, CellIs, selectedFungsi);
    if matches == [] {
      return NotFound(NotFoundMessage(kind, selectedFungsi));
    }
    var kci := ColumnIndex(bench, KeyColumn);
    if kci.None? {
      return Failed(MissingColumn(KeyColumn));
    }
    var fd := Select(subject, matches);
    var hsh := SubjectHsh(fd, selectedHsh);
    var rows, step := SelectBenchmark(BenchmarkKeys(bench, kci.value), Normalize(hsh));
    var bd := Select(bench, rows);
    var subjectValues, benchmarkValues;
    match kind {
      case Evidence =>
        subjectValues := CollectPositional(fd, 0, SubjectOffset, EvidenceColumns);
        benchmarkValues := CollectPositional(bd, 0, BenchmarkOffset, EvidenceColumns);
      case Survey =>
        subjectValues := SubjectValues(Survey, fd);
        benchmarkValues := BenchmarkValues(Survey, bd);
    }
    p := Ready(Comparison(Shown(hsh), BenchmarkName(bd), subjectValues, benchmarkValues, step));
  }

  /** The comparison stops at the not-found guard exactly when a `Fungsi` column exists and no row of it holds the selected function. */
  lemma NotFoundIff(kind: Kind, subject: Table, bench: Table, selectedHsh: string, selectedFungsi: string)
    ensures Prepare(kind, subject, bench, selectedHsh, selectedFungsi).NotFound? <==> NoSubjectRow(subject, selectedFungsi)
  {
    var fci := ColumnIndex(subject, FungsiColumn);
    if fci.Some? {
      var fc := fci.value;
      RowsWhereEmpty(subject, fc, selectedFungsi);
      forall fc' | 0 <= fc' < |subject.columns| && subject.columns[fc'] == FungsiColumn
        ensures fc' == fc
      {
      }
    }
  }

  /**
   * An exception is caught exactly when a column the analysis indexes by
   * name is missing: `Fungsi` in the subject table, or the key column in
   * the benchmark table once the subject row is found.
   */
  lemma FailedIff(kind: Kind, subject: Table, bench: Table, selectedHsh: string, selectedFungsi: string)
    ensures var p := Prepare(kind, subject, bench, selectedHsh, selectedFungsi);
      && (FungsiColumn !in subject.columns ==> p == Failed(MissingColumn(FungsiColumn)))
      && (FungsiColumn in subject.columns ==>
            (p.Failed? <==> !p.NotFound? && KeyColumn !in bench.columns))
  {
  }

  /** A comparison that gets ready is the comparison of the rows holding the selected function. */
  lemma ReadyIsCompare(kind: Kind, subject: Table, bench: Table, selectedHsh: string, selectedFungsi: string, fc: nat, kc: nat)
    requires fc < |subject.columns| && subject.columns[fc] == FungsiColumn
    requires kc < |bench.columns| && bench.columns[kc] == KeyColumn
    requires RowsWhere(subject, fc, selectedFungsi) != []
    ensures Prepare(kind, subject, bench, selectedHsh, selectedFungsi) ==
      Ready(Compare(kind, Select(subject, RowsWhere(subject, fc, selectedFungsi)), bench, kc, selectedHsh))
  {
    ColumnIndexUnique(subject, FungsiColumn, fc);
    ColumnIndexUnique(bench, KeyColumn, kc);
  }

  /** The subject rows begin with the first row, in table order, that holds the selected function. */
  lemma SubjectIsFirstMatch(subject: Table, selectedFungsi: string, fc: nat, r: nat)
    requires fc < |subject.columns|
    requires r < |subject.rows| && subject.rows[r][fc] == Text(selectedFungsi)
    requires forall j :: 0 <= j < r ==> subject.rows[j][fc] != Text(selectedFungsi)
    ensures var fd := Select(subject, RowsWhere(subject, fc, selectedFungsi));
      fd.rows != [] && fd.rows[0] == subject.rows[r]
    ensures forall kind ::
      SubjectValues(kind, Select(subject, RowsWhere(subject, fc, selectedFungsi))) == SubjectValues(kind, Select(subject, [r]))
  {
    var matches := RowsWhere(subject, fc, selectedFungsi);
    assert r in matches;
    assert matches[0] == r;
    SelectFirstRow(subject, matches, 0);
    SelectFirstRow(subject, [r], 0);
  }

  /** The benchmark row shown is the first row the cascade selects: its first cell names it, and the evidence values are read from it. */
  lemma BenchmarkIsSelectedRow(kind: Kind, fd: Table, bench: Table, kc: nat, selectedHsh: string)
    requires fd.rows != [] && kc < |bench.columns| && bench.rows != []
    ensures var sel := SelectRows(BenchmarkKeys(bench, kc), Normalize(SubjectHsh(fd, selectedHsh)));
      var c := Compare(kind, fd, bench, kc, selectedHsh);
      && c.step == sel.step
      && c.benchmarkHsh == Shown(bench.rows[sel.rows[0]][0])
      && (kind == Evidence ==> c.benchmarkValues == PositionalValues(bench, sel.rows[0], BenchmarkOffset, EvidenceColumns))
      && (kind == Survey ==> c.benchmarkValues == NamedValues(bench, sel.rows[0], SurveyBenchmarkColumns))
  {
    var sel := SelectRows(BenchmarkKeys(bench, kc), Normalize(SubjectHsh(fd, selectedHsh)));
    SelectFirstRow(bench, sel.rows, 0);
  }

  /** A benchmark table without rows shows the placeholder name and "N/A" for every value. */
  lemma NoBenchmarkRows(kind: Kind, fd: Table, bench: Table, kc: nat, selectedHsh: string)
    requires fd.rows != [] && kc < |bench.columns| && bench.rows == []
    ensures var c := Compare(kind, fd, bench, kc, selectedHsh);
      && c.benchmarkHsh == NoBenchmark
      && forall i :: 0 <= i < |c.benchmarkValues| ==> c.benchmarkValues[i].1 == NotAvailable
  {
    var sel := SelectRows(BenchmarkKeys(bench, kc), Normalize(SubjectHsh(fd, selectedHsh)));
    assert sel.rows == [];
    var bd := Select(bench, sel.rows);
    assert bd.rows == [];
    NoRowValues(kind, bd);
  }

  /** Every value read from a frame without rows is "N/A". */
  lemma NoRowValues(kind: Kind, bd: Table)
    requires bd.rows == []
    ensures forall i :: 0 <= i < |BenchmarkValues(kind, bd)| ==> BenchmarkValues(kind, bd)[i].1 == NotAvailable
  {
  }

  /** Without impact content the API is not called: the answer does not depend on it. */
  lemma ImpactWithoutContent(env1: nat -> Outcome, env2: nat -> Outcome)
    ensures ImpactSection(None, env1) == ImpactSection(None, env2) == NoImpactMessage
  {
  }
}
