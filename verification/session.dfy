/**
 * The annotation session of app.py: the state the module-level globals hold,
 * the `annotate` handler as a pure transition over it, and the session start
 * that the `index` handler performs. Routing, templates and redirects become
 * a small response datatype.
 */
module Session {
  import opened Wrappers
  import opened Records
  import opened FormFields
  import opened Storage
  import opened Emotions

  /**
   * The session state: the in-memory dataset (DATA), the in-memory resume row
   * (PROGRESS), what the dataset file holds (store), the progress sidecar file,
   * and the emotion catalog with its flattened lists.
   */
  datatype State = State(
    data: seq<Record>,
    progress: int,
    store: seq<Record>,
    progressFile: ProgressFile,
    catalog: Catalog,
    globals: GlobalLists)

  datatype HttpMethod = Get | Post

  /**
   * The form of a POST. `gotoRow` and `totalItems` are the results of the
   * source's integer conversions (`None` when the field is missing or not an
   * integer); `fields` holds every submitted field by name.
   */
  datatype Form = Form(action: Option<string>, gotoRow: Option<int>, totalItems: Option<int>,
                       fields: map<string, string>)

  /** One request to /annotate: its HTTP method, its `row` query argument, its form. */
  datatype Request = Request(verb: HttpMethod, row: Option<int>, form: Form)

  /** Why a request raised instead of answering: total_items unusable, or the row has no "input". */
  datatype Fault = BadTotalItems | MissingInput

  datatype Response =
    | Complete                                  // the "All rows annotated!" page
    | Page(index: nat, total: nat, row: Record, catalog: Catalog, globals: GlobalLists)
    | Redirect(target: Option<int>)             // to /annotate, with `row` when present
    | Failed(fault: Fault)

  datatype Step = Step(state: State, response: Response)

  const SaveAction: string := "save"
  const NavigateAction: string := "navigate"

  /** The row a request addresses: its `row` argument, else the in-memory progress. */
  function RequestedRow(progress: int, req: Request): (row: int)
    ensures req.row.Some? ==> row == req.row.value
    ensures req.row.None? ==> row == progress
  {
    req.row.GetOr(progress)
  }

  /** Negative rows index from the end in Python; the model leaves them out. */
  predicate RowValid(progress: int, req: Request) {
    RequestedRow(progress, req) >= 0
  }

  /** The POST is a navigation rather than a save; a missing action means save. */
  function IsNavigation(form: Form): (nav: bool)
    ensures nav <==> form.action == Some(NavigateAction)
  {
    form.action.GetOr(SaveAction) == NavigateAction
  }

  /** The GET branch of annotate: renders row `row` with the catalog and lists. */
  function Serve(s: State, row: nat): (step: Step)
    requires row < |s.data|
    ensures step.state == s
    ensures step.response.Page? && step.response.index == row && step.response.total == |s.data|
    ensures step.response.row == s.data[row]
    ensures step.response.catalog == s.catalog && step.response.globals == s.globals
  {
    Step(s, Page(row, |s.data|, s.data[row], s.catalog, s.globals))
  }

  /**
   * The save branch of annotate: an upsert of row `row` that keeps its input
   * and replaces its output, then a rewrite of the whole dataset file, then
   * the progress file set to `row + 1` whatever it held before. The
   * in-memory progress is left alone. A raise leaves everything unchanged.
   */
  function Save(s: State, row: nat, form: Form): (step: Step)
    requires row < |s.data|
    ensures form.totalItems.None? ==> step == Step(s, Failed(BadTotalItems))
    ensures form.totalItems.Some? && s.data[row].input.None? ==> step == Step(s, Failed(MissingInput))
    ensures form.totalItems.Some? && s.data[row].input.Some? ==>
      var total := form.totalItems.value;
      var t := step.state;
      && |t.data| == |s.data|
      && t.data[row].input == s.data[row].input
      && t.data[row].output.Some?
      && |t.data[row].output.value| == (if total < 0 then 0 else total)
      && (forall i :: 0 <= i < |t.data[row].output.value| ==> t.data[row].output.value[i] == LabelAt(form.fields, i))
      && (forall j :: 0 <= j < |s.data| && j != row ==> t.data[j] == s.data[j])
      && t.store == t.data
      && LoadProgress(t.progressFile) == row + 1
      && t.progress == s.progress && t.catalog == s.catalog && t.globals == s.globals
      && step.response == Redirect(Some(row + 1))
  {
    match form.totalItems
    case None => Step(s, Failed(BadTotalItems))
    case Some(total) =>
      match s.data[row].input
      case None => Step(s, Failed(MissingInput))
      case Some(input) =>
        var entry := Record(Some(input), Some(BuildLabels(form.fields, total)));
        var data := s.data[row := entry];
        Step(s.(data := data, store := data, progressFile := SaveProgress(row + 1)), Redirect(Some(row + 1)))
  }

  /**
   * The annotate handler. The completion check comes first, for GET and POST
   * alike; a navigation POST only redirects; every other POST saves.
   */
  function Annotate(s: State, req: Request): (step: Step)
    requires RowValid(s.progress, req)
    ensures RequestedRow(s.progress, req) >= |s.data| ==> step == Step(s, Complete)
    ensures RequestedRow(s.progress, req) < |s.data| && req.verb == Get ==>
              step == Serve(s, RequestedRow(s.progress, req))
    ensures RequestedRow(s.progress, req) < |s.data| && req.verb == Post && !IsNavigation(req.form) ==>
              step == Save(s, RequestedRow(s.progress, req), req.form)
    ensures req.verb == Get ==> step.state == s
    ensures req.verb == Post && IsNavigation(req.form) && RequestedRow(s.progress, req) < |s.data| ==>
              step == Step(s, Redirect(req.form.gotoRow))
    ensures step.state != s ==>
              req.verb == Post && !IsNavigation(req.form)
              && step.response == Redirect(Some(RequestedRow(s.progress, req) + 1))
    ensures step.state.progress == s.progress
    ensures |step.state.data| == |s.data|
    ensures forall i :: 0 <= i < |s.data| ==> step.state.data[i].input == s.data[i].input
    ensures s.store == s.data ==> step.state.store == step.state.data
    ensures 0 <= LoadProgress(s.progressFile) <= |s.data| ==>
              0 <= LoadProgress(step.state.progressFile) <= |s.data|
  {
    var row := RequestedRow(s.progress, req);
    if row >= |s.data| then Step(s, Complete)
    else match req.verb
      case Get => Serve(s, row)
      case Post =>
        if IsNavigation(req.form) then Step(s, Redirect(req.form.gotoRow))
        else Save(s, row, req.form)
  }

  /** A sequence of requests handled one after the other. */
  function Run(s: State, reqs: seq<Request>): (t: State)
    requires forall k :: 0 <= k < |reqs| ==> RowValid(s.progress, reqs[k])
    ensures t.progress == s.progress
    ensures |t.data| == |s.data|
    ensures forall i :: 0 <= i < |s.data| ==> t.data[i].input == s.data[i].input
    ensures s.store == s.data ==> t.store == t.data
    ensures t.catalog == s.catalog && t.globals == s.globals
    ensures 0 <= LoadProgress(s.progressFile) <= |s.data| ==> 0 <= LoadProgress(t.progressFile) <= |t.data|
    decreases |reqs|
  {
    if |reqs| == 0 then s
    else
      var next := Annotate(s, reqs[0]).state;
      assert forall k :: 0 <= k < |reqs[1..]| ==> reqs[1..][k] == reqs[k + 1];
      Run(next, reqs[1..])
  }

  /** The state a session starts from, given what is on disk; index redirects to its progress. */
  function Resume(records: seq<Record>, pf: ProgressFile, catalog: Catalog, globals: GlobalLists): (step: Step)
    ensures step.state.data == records && step.state.store == records
    ensures step.state.progress == LoadProgress(pf)
    ensures step.response == Redirect(Some(LoadProgress(pf)))
  {
    var s := State(records, LoadProgress(pf), records, pf, catalog, globals);
    Step(s, Redirect(Some(s.progress)))
  }

  /** Why starting a session raised: a dataset line that is not JSON, or no usable catalog. */
  datatype StartFault = BadDataLine | CatalogUnavailable

  /**
   * The POST branch of index: load the dataset file (none if it does not
   * exist), then the catalog, flatten it, read the progress file, and
   * redirect to the resume row.
   */
  method Start(dataFile: Option<seq<string>>, decode: string -> Option<Record>,
               catalogFile: Option<Catalog>, pf: ProgressFile)
    returns (r: Result<Step, StartFault>)
    ensures LoadJsonl(dataFile, decode).None? ==> r == Failure(BadDataLine)
    ensures LoadJsonl(dataFile, decode).Some? && catalogFile.None? ==> r == Failure(CatalogUnavailable)
    ensures LoadJsonl(dataFile, decode).Some? && catalogFile.Some? ==>
      && r.Success?
      && r.value.state.data == LoadJsonl(dataFile, decode).value
      && r.value.state.store == r.value.state.data
      && r.value.state.progress == LoadProgress(pf)
      && r.value.state.progressFile == pf
      && r.value.state.catalog == catalogFile.value
      && r.value.response == Redirect(Some(LoadProgress(pf)))
    ensures r.Success? ==>
      var g := r.value.state.globals;
      && SortedLists(g)
      && (forall e :: e in g.positive <==> FiledUnder(catalogFile.value, Positive, e))
      && (forall e :: e in g.negative <==> FiledUnder(catalogFile.value, Negative, e))
      && (forall e :: e in g.neutral <==> FiledUnder(catalogFile.value, Neutral, e))
  {
    var loaded := LoadJsonl(dataFile, decode);
    if loaded.None? {
      return Failure(BadDataLine);
    }
    if catalogFile.None? {
      return Failure(CatalogUnavailable);
    }
    var g := FlattenGlobalEmotions(catalogFile.value);
    r := Success(Resume(loaded.value, pf, catalogFile.value, g));
  }
}
