/**
  The edit-session dialog's arithmetic and validation: the live duration
  preview and the checks `handleSave` runs before handing back the corrected
  entry. Turning a date field and a time field into an instant is local-time
  calendar work and is a parameter, `at`.
 */
module EditDialog {

  import opened Common
  import opened Entities

  /** The dialog's text fields as typed. */
  datatype Form = Form(
    projectId: string,
    startDate: string,
    startTime: string,
    endDate: string,
    endTime: string,
    description: string)

  /** `new Date(`${date}T${time}`).getTime()`, in local time. */
  type LocalClock = (string, string) -> Millis

  /** `calculateDuration`: 0 while a field is empty, else whole seconds from start to end. */
  function CalculateDuration(f: Form, at: LocalClock): (d: int)
    ensures f.startDate == "" || f.startTime == "" || f.endDate == "" || f.endTime == "" ==> d == 0
    ensures f.startDate != "" && f.startTime != "" && f.endDate != "" && f.endTime != "" ==>
      var span := at(f.endDate, f.endTime) - at(f.startDate, f.startTime);
      d * 1000 <= span < d * 1000 + 1000
  {
    if f.startDate == "" || f.startTime == "" || f.endDate == "" || f.endTime == "" then 0
    else FloorSeconds(at(f.endDate, f.endTime) - at(f.startDate, f.startTime))
  }

  /** The characters `String.prototype.trim` removes: white space and line terminators. */
  predicate IsJsSpace(c: char)
  {
    || c == '\t' || c == '\n' || c == '\U{000B}' || c == '\U{000C}' || c == '\r' || c == ' '
    || c == '\U{00A0}' || c == '\U{1680}' || ('\U{2000}' <= c <= '\U{200A}')
    || c == '\U{2028}' || c == '\U{2029}' || c == '\U{202F}' || c == '\U{205F}'
    || c == '\U{3000}' || c == '\U{FEFF}'
  }

  function TrimStart(s: string): (r: string)
    ensures r == [] || !IsJsSpace(r[0])
    ensures |r| <= |s| && r == s[|s| - |r|..]
    ensures forall i :: 0 <= i < |s| - |r| ==> IsJsSpace(s[i])
  {
    if s != [] && IsJsSpace(s[0]) then TrimStart(s[1..]) else s
  }

  function TrimEnd(s: string): (r: string)
    ensures r == [] || !IsJsSpace(r[|r| - 1])
    ensures |r| <= |s| && r == s[..|r|]
    ensures forall i :: |r| <= i < |s| ==> IsJsSpace(s[i])
  {
    if s != [] && IsJsSpace(s[|s| - 1]) then TrimEnd(s[..|s| - 1]) else s
  }

  /** `s.trim()`: drops the white space at both ends. */
  function Trim(s: string): (r: string)
    ensures r == [] || (!IsJsSpace(r[0]) && !IsJsSpace(r[|r| - 1]))
    ensures |r| <= |s|
  {
    TrimEnd(TrimStart(s))
  }

  /** The trimmed text is a slice of the input with only white space around it. */
  lemma TrimIsSlice(s: string) returns (a: nat)
    ensures a + |Trim(s)| <= |s| && Trim(s) == s[a..a + |Trim(s)|]
    ensures forall i :: 0 <= i < a ==> IsJsSpace(s[i])
    ensures forall i :: a + |Trim(s)| <= i < |s| ==> IsJsSpace(s[i])
  {
    var t := TrimStart(s);
    var r := TrimEnd(t);
    a := |s| - |t|;
    assert t == s[a..];
    assert r == t[..|r|];
    assert s[a..][..|r|] == s[a..a + |r|];
    forall i | a + |r| <= i < |s| ensures IsJsSpace(s[i]) {
      assert s[i] == t[i - a];
    }
  }

  /** Trimming removes only white space: a string with no white space at all is its own trim. */
  lemma TrimKeepsInk(s: string)
    requires forall i :: 0 <= i < |s| ==> !IsJsSpace(s[i])
    ensures Trim(s) == s
  {
  }

  /** Trimming twice is trimming once. */
  lemma TrimIdempotent(s: string)
    ensures Trim(Trim(s)) == Trim(s)
  {
    var r := Trim(s);
    if r != [] {
      assert TrimStart(r) == r;
      assert TrimEnd(r) == r;
    }
  }

  /** Why a save was refused. */
  datatype Refusal = NoProject | NoStart | NoEnd | EndNotAfterStart | EndInFuture

  datatype SaveResult = NoEntry | Refused(why: Refusal) | Saved(entry: TimeEntry)

  /**
    `handleSave`: the checks in the order the dialog runs them, then the
    entry with the form's project, start, end and trimmed description, an
    empty description dropped, and the duration recomputed.
   */
  function HandleSave(entry: Option<TimeEntry>, f: Form, at: LocalClock, now: Millis): (r: SaveResult)
    ensures entry.None? <==> r == NoEntry
    ensures entry.Some? && f.projectId == "" ==> r == Refused(NoProject)
    ensures entry.Some? && f.projectId != "" && (f.startDate == "" || f.startTime == "") ==> r == Refused(NoStart)
    ensures entry.Some? && f.projectId != "" && f.startDate != "" && f.startTime != "" && (f.endDate == "" || f.endTime == "") ==>
      r == Refused(NoEnd)
    ensures r.Saved? ==> f.projectId != "" && f.startDate != "" && f.startTime != "" && f.endDate != "" && f.endTime != ""
    ensures r.Saved? ==>
      var start, end := at(f.startDate, f.startTime), at(f.endDate, f.endTime);
      && start < end <= now
      && r.entry.id == entry.value.id
      && r.entry.projectId == f.projectId
      && r.entry.startTime == start && r.entry.endTime == Some(end)
      && r.entry.duration >= 0
      && r.entry.duration * 1000 <= end - start < r.entry.duration * 1000 + 1000
      && (r.entry.description.None? <==> Trim(f.description) == "")
      && (r.entry.description.Some? ==> r.entry.description.value == Trim(f.description))
    ensures entry.Some? && f.projectId != "" && f.startDate != "" && f.startTime != "" && f.endDate != "" && f.endTime != "" ==>
      var start, end := at(f.startDate, f.startTime), at(f.endDate, f.endTime);
      && (end <= start <==> r == Refused(EndNotAfterStart))
      && (start < end && end > now <==> r == Refused(EndInFuture))
      && (start < end <= now <==> r.Saved?)
  {
    match entry
    case None => NoEntry
    case Some(e) =>
      if f.projectId == "" then Refused(NoProject)
      else if f.startDate == "" || f.startTime == "" then Refused(NoStart)
      else if f.endDate == "" || f.endTime == "" then Refused(NoEnd)
      else
        var start, end := at(f.startDate, f.startTime), at(f.endDate, f.endTime);
        if end <= start then Refused(EndNotAfterStart)
        else if end > now then Refused(EndInFuture)
        else
          var text := Trim(f.description);
          Saved(e.(projectId := f.projectId, startTime := start, endTime := Some(end),
                   duration := FloorSeconds(end - start),
                   description := if text == "" then None else Some(text)))
  }

  /** The saved duration is the one the dialog previewed. */
  lemma SavedDurationIsPreview(entry: Option<TimeEntry>, f: Form, at: LocalClock, now: Millis)
    requires HandleSave(entry, f, at, now).Saved?
    ensures HandleSave(entry, f, at, now).entry.duration == CalculateDuration(f, at)
  {
  }
}
