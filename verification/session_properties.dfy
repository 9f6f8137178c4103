/** Properties of the annotation session that relate several requests. */
module SessionProperties {
  import opened Wrappers
  import opened Records
  import opened FormFields
  import opened Storage
  import opened Emotions
  import opened Session

  /** A POST that saves `form` at row `row`. */
  function SaveRequest(row: nat, form: Form): Request {
    Request(Post, Some(row), form)
  }

  /** The save goes through: the row exists, the form counts its labels, the row has an input. */
  predicate SaveSucceeds(s: State, row: nat, form: Form) {
    row < |s.data| && !IsNavigation(form) && form.totalItems.Some? && s.data[row].input.Some?
  }

  /**
   * Once the addressed row is past the end, every request there, GET or POST,
   * answers "complete" and changes nothing, so asking again answers the same.
   */
  lemma CompleteIsIdempotent(s: State, req: Request, again: Request)
    requires RowValid(s.progress, req) && RequestedRow(s.progress, req) >= |s.data|
    requires RequestedRow(s.progress, again) == RequestedRow(s.progress, req)
    ensures Annotate(s, req) == Step(s, Complete)
    ensures Annotate(Annotate(s, req).state, again) == Annotate(s, req)
  {
  }

  /** Saving a row and then displaying it shows exactly the labels just submitted. */
  lemma SaveThenServe(s: State, row: nat, form: Form, view: Request)
    requires SaveSucceeds(s, row, form)
    requires view.verb == Get && view.row == Some(row)
    ensures
      var saved := Annotate(s, SaveRequest(row, form)).state;
      Annotate(saved, view).response
        == Page(row, |s.data|, Record(s.data[row].input, Some(BuildLabels(form.fields, form.totalItems.value))),
                s.catalog, s.globals)
  {
  }

  /**
   * Saving a row a second time replaces the first save: the result is the one
   * a single save of the later form gives, so the dataset file does not grow.
   */
  lemma ResaveReplaces(s: State, row: nat, first: Form, second: Form)
    requires SaveSucceeds(s, row, first) && SaveSucceeds(s, row, second)
    ensures
      var once := Annotate(s, SaveRequest(row, first)).state;
      && |once.store| == |s.data|
      && Annotate(once, SaveRequest(row, second)) == Annotate(s, SaveRequest(row, second))
  {
    var once := Annotate(s, SaveRequest(row, first)).state;
    var e := Record(s.data[row].input, Some(BuildLabels(second.fields, second.totalItems.value)));
    assert once.data[row := e] == s.data[row := e];
  }

  /**
   * The progress file is set to the row after the saved one, not to the
   * larger of that and what it held: saving an earlier row moves it back.
   */
  lemma SaveCanMoveProgressBack(s: State, row: nat, form: Form)
    requires SaveSucceeds(s, row, form)
    requires LoadProgress(s.progressFile) > row + 1
    ensures LoadProgress(Annotate(s, SaveRequest(row, form)).state.progressFile) < LoadProgress(s.progressFile)
  {
  }

  /**
   * Restarting from what a save left on disk gives back the same dataset,
   * resumes at the row after the saved one, and displays every row as the
   * running session does.
   */
  lemma ReloadAfterSave(s: State, row: nat, form: Form)
    requires SaveSucceeds(s, row, form)
    ensures
      var t := Annotate(s, SaveRequest(row, form)).state;
      var restarted := Resume(t.store, t.progressFile, t.catalog, t.globals);
      && restarted.state == t.(progress := row + 1)
      && restarted.response == Redirect(Some(row + 1))
      && (forall i :: 0 <= i < |t.data| ==> Serve(restarted.state, i).response == Serve(t, i).response)
  {
  }

  /** Navigating away and back shows a saved row as saved, not as its raw input. */
  lemma NavigationKeepsSavedRow(s: State, row: nat, form: Form, from: nat, nav: Form, view: Request)
    requires SaveSucceeds(s, row, form)
    requires from < |s.data| && IsNavigation(nav)
    requires view.verb == Get && view.row == Some(row)
    ensures
      var saved := Annotate(s, SaveRequest(row, form)).state;
      var moved := Annotate(saved, Request(Post, Some(from), nav));
      && moved == Step(saved, Redirect(nav.gotoRow))
      && Annotate(moved.state, view).response.row == saved.data[row]
      && saved.data[row].output == Some(BuildLabels(form.fields, form.totalItems.value))
  {
  }

  /**
   * A three-row file "A", "B", "C": saving row 0 with the label
   * (food, positive, tasty) writes that row back with the label, sets the
   * progress file to 1 and redirects to row 1, which still shows "B"
   * unlabelled; navigating from row 1 to row 0 then shows the saved row.
   */
  lemma ThreeRowScenario()
    ensures
      var a, b, c := Record(Some("A"), None), Record(Some("B"), None), Record(Some("C"), None);
      var s := Resume([a, b, c], Absent, map["food" := map["positive" := ["tasty"]]],
                      GlobalLists(["tasty"], [], [])).state;
      var form := Form(None, None, Some(1),
                       map["aspect_0" := "food", "polarity_0" := "positive", "emotion_0" := "tasty"]);
      var saved := Annotate(s, SaveRequest(0, form));
      var labelled := Record(Some("A"), Some([Label(Some("food"), Some("positive"), Some("tasty"))]));
      var nav := Form(Some("navigate"), Some(0), None, map[]);
      && saved.response == Redirect(Some(1))
      && saved.state.store == [labelled, b, c]
      && LoadProgress(saved.state.progressFile) == 1
      && Annotate(saved.state, Request(Get, Some(1), form)).response.row == b
      && Annotate(saved.state, Request(Post, Some(1), nav)).response == Redirect(Some(0))
      && Annotate(saved.state, Request(Get, Some(0), nav)).response.row == labelled
  {
    assert Decimal(0) == "0";
    assert FieldName(AspectField, 0) == "aspect_0";
    assert FieldName(PolarityField, 0) == "polarity_0";
    assert FieldName(EmotionField, 0) == "emotion_0";
    var form := Form(None, None, Some(1),
                     map["aspect_0" := "food", "polarity_0" := "positive", "emotion_0" := "tasty"]);
    assert BuildLabels(form.fields, 1) == [Label(Some("food"), Some("positive"), Some("tasty"))];
  }

  /** Displaying rows and navigating, in any number and order, leave the session as it was. */
  lemma {:induction false} ReadOnlyRunChangesNothing(s: State, reqs: seq<Request>)
    requires forall k :: 0 <= k < |reqs| ==> RowValid(s.progress, reqs[k])
    requires forall k :: 0 <= k < |reqs| ==> reqs[k].verb == Get || IsNavigation(reqs[k].form)
    ensures Run(s, reqs) == s
    decreases |reqs|
  {
    if |reqs| > 0 {
      assert Annotate(s, reqs[0]).state == s;
      assert forall k :: 0 <= k < |reqs[1..]| ==> reqs[1..][k] == reqs[k + 1];
      ReadOnlyRunChangesNothing(s, reqs[1..]);
    }
  }
}
