/** The change tracker of one document upload field, between two openings of its dialog. */
module UploadTracker {
  import opened Wrappers

  /** A file, by identity and size. */
  datatype File = File(id: nat, size: nat)

  const LIMIT: nat := 50 * 1024 * 1024

  /** `loaded` is the file that the latest load put in; it is history and read by no operation. */
  datatype State = State(files: seq<File>, cached: Option<File>, changed: bool, original: bool, loaded: Option<File>)

  const CLOSED := State([], None, false, false, None)

  /** `previewImage`, called after the browser has put the chosen files into the input. */
  function Preview(s: State): State {
    if s.files == [] then
      if s.cached.Some? then s.(files := [s.cached.value]) else s
    else if s.files[0].size > LIMIT then s.(files := [])
    else s.(cached := Some(s.files[0]), changed := true)
  }

  function Clear(s: State): State {
    s.(files := [], changed := s.original, cached := None)
  }

  function Load(s: State, image: Option<File>): State {
    match image
    case Some(f) => s.(files := [f], cached := image, original := true, loaded := image)
    case None => Clear(s).(original := false, loaded := None)
  }

  datatype Event =
    | Choose(files: seq<File>)   // the file dialog, cancelled when empty
    | Drop(files: seq<File>)     // any number of files
    | ClearField
    | LoadField(image: Option<File>)
    | Reset                      // the dialog has closed

  function Step(s: State, e: Event): State {
    match e
    case Choose(fs) => Preview(s.(files := fs))
    case Drop(fs) => Preview(s.(files := fs))
    case ClearField => Clear(s)
    case LoadField(image) => Load(s, image)
    case Reset => CLOSED
  }

  class Field {
    var files: seq<File>
    var cachedFile: Option<File>
    var uploadStatus: bool
    var originalFileState: bool
    ghost var loaded: Option<File>

    ghost function View(): State
      reads this
    {
      State(files, cachedFile, uploadStatus, originalFileState, loaded)
    }

    constructor ()
      ensures View() == CLOSED
    {
      files, cachedFile, uploadStatus, originalFileState, loaded := [], None, false, false, None;
    }

    method PreviewImage()
      modifies this
      ensures View() == Preview(old(View()))
    {
      if |files| == 0 {
        if cachedFile.Some? {
          files := [cachedFile.value];
        }
        return;
      }
      var file := files[0];
      if file.size > LIMIT {
        files := [];
        return;
      }
      cachedFile := Some(file);
      uploadStatus := true;
    }

    method HandleDrop(dropped: seq<File>)
      modifies this
      ensures View() == Step(old(View()), Drop(dropped))
    {
      files := dropped;
      PreviewImage();
    }

    method ClearImage()
      modifies this
      ensures View() == Step(old(View()), ClearField)
    {
      files := [];
      if originalFileState {
        uploadStatus := true;
      } else {
        uploadStatus := false;
      }
      cachedFile := None;
    }

    method LoadBase64Preview(image: Option<File>)
      modifies this
      ensures View() == Step(old(View()), LoadField(image))
    {
      if image.Some? {
        files := [image.value];
        cachedFile := image;
        originalFileState := true;
      } else {
        ClearImage();
        originalFileState := false;
      }
      loaded := image;
    }

    method OnHidden()
      modifies this
      ensures View() == CLOSED
    {
      files := [];
      cachedFile := None;
      uploadStatus := false;
      originalFileState := false;
      loaded := None;
    }
  }

  // Every run.

  function After(s: State, run: seq<Event>): State
    decreases |run|
  {
    if run == [] then s else After(Step(s, run[0]), run[1..])
  }

  /** An unchanged field still caches what was loaded, and the input starts with the cached file or is empty. */
  ghost predicate Inv(s: State) {
    && (!s.changed ==> s.cached == s.loaded)
    && (s.files != [] ==> s.cached == Some(s.files[0]))
    && (s.original <==> s.loaded.Some?)
  }

  lemma {:induction false} RunKeepsInv(s: State, run: seq<Event>)
    requires Inv(s)
    ensures Inv(After(s, run))
    decreases |run|
  {
    if run != [] {
      assert Inv(Step(s, run[0]));
      RunKeepsInv(Step(s, run[0]), run[1..]);
    }
  }

  /** For every sequence of choosing, cancelling, dropping, clearing, loading and closing. */
  lemma UnchangedKeepsOriginal(run: seq<Event>)
    ensures var s := After(CLOSED, run);
      && (!s.changed ==> s.cached == s.loaded)
      && (s.files != [] ==> s.cached == Some(s.files[0]))
  {
    RunKeepsInv(CLOSED, run);
  }

  // What a run leaves, by its events alone.

  /** A choice or drop whose first file has at most 50 MB. */
  predicate Accepted(e: Event) {
    (e.Choose? || e.Drop?) && |e.files| > 0 && e.files[0].size <= 52428800
  }

  predicate Empties(e: Event) {
    e.ClearField? || (e.LoadField? && e.image.None?)
  }

  /** The latest load or closing before the i-th event loaded an image. */
  ghost predicate HadImage(run: seq<Event>, i: nat)
    requires i <= |run|
  {
    exists k :: 0 <= k < i && LoadedLast(run, k, i)
  }

  ghost predicate LoadedLast(run: seq<Event>, k: nat, i: nat)
    requires k < i <= |run|
  {
    && run[k].LoadField? && run[k].image.Some?
    && (forall j :: k < j < i ==> !run[j].LoadField? && !run[j].Reset?)
  }

  /** The i-th event is an accepted file, or empties a field that had an image, and no such event or closing follows. */
  ghost predicate ChangesLast(run: seq<Event>, i: nat)
    requires i < |run|
  {
    && (Accepted(run[i]) || (Empties(run[i]) && HadImage(run, i)))
    && (forall j :: i < j < |run| ==> !Accepted(run[j]) && !Empties(run[j]) && !run[j].Reset?)
  }

  ghost predicate IsChanged(run: seq<Event>) {
    exists i :: 0 <= i < |run| && ChangesLast(run, i)
  }

  /** The i-th event brings the file, and no accepted file, clearing, load or closing follows. */
  ghost predicate BringsLast(run: seq<Event>, i: nat, f: File)
    requires i < |run|
  {
    && ((Accepted(run[i]) && run[i].files[0] == f) || run[i] == LoadField(Some(f)))
    && (forall j :: i < j < |run| ==>
          !Accepted(run[j]) && !run[j].ClearField? && !run[j].LoadField? && !run[j].Reset?)
  }

  ghost predicate Brings(run: seq<Event>, f: File) {
    exists i :: 0 <= i < |run| && BringsLast(run, i, f)
  }

  lemma HadImageBefore(run: seq<Event>, n: nat, i: nat)
    requires i <= n <= |run|
    ensures HadImage(run[..n], i) <==> HadImage(run, i)
  {
    if k :| 0 <= k < i && LoadedLast(run[..n], k, i) {
      assert forall j :: k < j < i ==> run[..n][j] == run[j];
      assert LoadedLast(run, k, i);
    }
    if k :| 0 <= k < i && LoadedLast(run, k, i) {
      assert LoadedLast(run[..n], k, i);
    }
  }

  lemma HadImageStep(run: seq<Event>)
    requires run != []
    ensures var n := |run| - 1; var e := run[n];
      HadImage(run, |run|) <==> if e.LoadField? then e.image.Some? else !e.Reset? && HadImage(run, n)
  {
    var n := |run| - 1;
    var e := run[n];
    if e.LoadField? && e.image.Some? {
      assert LoadedLast(run, n, |run|);
    }
    if k :| 0 <= k < |run| && LoadedLast(run, k, |run|) {
      assert k < n ==> LoadedLast(run, k, n);
    }
    if k :| 0 <= k < n && LoadedLast(run, k, n) && !e.LoadField? && !e.Reset? {
      assert LoadedLast(run, k, |run|);
    }
  }

  lemma ChangedStep(run: seq<Event>)
    requires run != []
    ensures var n := |run| - 1; var e := run[n];
      IsChanged(run) <==>
        (Accepted(e) || (Empties(e) && HadImage(run, n))
         || (!Empties(e) && !e.Reset? && IsChanged(run[..n])))
  {
    var n := |run| - 1;
    var e, before := run[n], run[..n];
    if Accepted(e) || (Empties(e) && HadImage(run, n)) {
      assert ChangesLast(run, n);
    }
    if i :| 0 <= i < |run| && ChangesLast(run, i) {
      if i < n {
        HadImageBefore(run, n, i);
        assert ChangesLast(before, i);
      }
    }
    if i :| 0 <= i < n && ChangesLast(before, i) && !Accepted(e) && !Empties(e) && !e.Reset? {
      HadImageBefore(run, n, i);
      assert forall j :: i < j < n ==> before[j] == run[j];
      assert ChangesLast(run, i);
    }
  }

  lemma BringsStep(run: seq<Event>, f: File)
    requires run != []
    ensures var n := |run| - 1; var e := run[n];
      Brings(run, f) <==>
        if Accepted(e) then e.files[0] == f
        else if e.LoadField? then e.image == Some(f)
        else !e.ClearField? && !e.Reset? && Brings(run[..n], f)
  {
    var n := |run| - 1;
    var e, before := run[n], run[..n];
    if (Accepted(e) && e.files[0] == f) || e == LoadField(Some(f)) {
      assert BringsLast(run, n, f);
    }
    if i :| 0 <= i < |run| && BringsLast(run, i, f) {
      assert i < n ==> BringsLast(before, i, f);
    }
    if i :| 0 <= i < n && BringsLast(before, i, f) && !Accepted(e) && !e.ClearField? && !e.LoadField? && !e.Reset? {
      assert forall j :: i < j < n ==> before[j] == run[j];
      assert BringsLast(run, i, f);
    }
  }

  /**
   * After every run: the change flag, the original mark and the cached file are what the events say. The flag is
   * set by an accepted file, and by emptying a field that had an image, until the field is emptied again or closed.
   */
  lemma {:induction false} ChangedExactlyWhen(run: seq<Event>)
    ensures After(CLOSED, run).changed <==> IsChanged(run)
    ensures After(CLOSED, run).original <==> HadImage(run, |run|)
  {
    if run != [] {
      var n := |run| - 1;
      LastStep(CLOSED, run);
      ChangedExactlyWhen(run[..n]);
      HadImageBefore(run, n, n);
      HadImageStep(run);
      ChangedStep(run);
    }
  }

  lemma {:induction false} CachedExactlyWhen(run: seq<Event>, f: File)
    ensures After(CLOSED, run).cached == Some(f) <==> Brings(run, f)
  {
    if run != [] {
      LastStep(CLOSED, run);
      CachedExactlyWhen(run[..|run| - 1], f);
      BringsStep(run, f);
    }
  }

  /** After a cancelled choice the input holds the cached file, after an oversize one nothing; the rest stays. */
  lemma RejectedChoice(run: seq<Event>, e: Event)
    requires (e.Choose? || e.Drop?) && !Accepted(e)
    ensures var s, r := After(CLOSED, run), After(CLOSED, run + [e]);
      && r.cached == s.cached && r.changed == s.changed && r.original == s.original
      && r.files == if e.files == [] && s.cached.Some? then [s.cached.value] else []
  {
    assert (run + [e])[..|run|] == run;
    LastStep(CLOSED, run + [e]);
  }

  /** Several files at once, of which the first is small enough. */
  predicate LeavesSeveral(e: Event) {
    (e.Choose? || e.Drop?) && |e.files| > 1 && e.files[0].size <= LIMIT
  }

  ghost predicate HoldsCachedAlone(s: State) {
    s.files == [] || (s.cached.Some? && s.files == [s.cached.value])
  }

  lemma {:induction false} LastStep(s: State, run: seq<Event>)
    requires run != []
    ensures After(s, run) == Step(After(s, run[..|run| - 1]), run[|run| - 1])
    decreases |run|
  {
    if |run| > 1 {
      LastStep(Step(s, run[0]), run[1..]);
      assert run[1..][..|run| - 2] == run[..|run| - 1][1..];
    }
  }

  /**
   * After every run the input holds the cached file alone, or nothing, exactly when the last event did not
   * bring several files with an accepted one in front, whatever went before.
   */
  lemma InputIsCachedExactlyWhen(run: seq<Event>)
    ensures HoldsCachedAlone(After(CLOSED, run)) <==> run == [] || !LeavesSeveral(run[|run| - 1])
  {
    if run != [] {
      LastStep(CLOSED, run);
    }
  }

  /** Two dropped files stay in the input while only the first is cached. */
  lemma TwoFilesDropped(a: File, b: File)
    requires a.size <= LIMIT
    ensures var s := After(CLOSED, [Drop([a, b])]); s.files == [a, b] && s.cached == Some(a) && !HoldsCachedAlone(s)
  {
  }
}
