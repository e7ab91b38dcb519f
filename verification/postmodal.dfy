/**
 * The create/edit dialog of src/components/PostModal.tsx: its nine form
 * fields, the defaults they take from the `initial` and `date` props when
 * the dialog opens, the platform toggle, the submit guard and what the
 * parent's onSave, onDelete and onClose callbacks are given. Callbacks are
 * modelled by what the handlers return; the browser's confirm dialog is a
 * parameter.
 */
module PostModal {
  import opened Optional
  import opened Lists

  /** The File the file input chose; the model only needs to tell files apart. */
  datatype FileRef = FileRef(name: string)

  /** The `initial` prop: every field may be missing. */
  datatype InitialValues = InitialValues(
    title: Option<string>,
    platform: Option<seq<string>>,
    caption: Option<string>,
    hashtags: Option<string>,
    file: Option<FileRef>,
    datetime: Option<string>,
    time: Option<string>,
    category: Option<string>,
    status: Option<string>)

  /** The default `initial = {}`. */
  const NoInitialValues := InitialValues(None, None, None, None, None, None, None, None, None)

  /** The values of the nine form fields, as handed to onSave. */
  datatype Fields = Fields(
    title: string,
    platform: seq<string>,
    caption: string,
    hashtags: string,
    file: Option<FileRef>,
    datetime: string,
    time: string,
    category: string,
    status: string)

  /** JavaScript's `s || d` for an optional string: a missing or empty string gives `d`. */
  function OrElse(s: Option<string>, d: string): (r: string)
    ensures s.Some? && s.value != "" ==> r == s.value
    ensures s.None? || s.value == "" ==> r == d
  {
    if s.Some? && s.value != "" then s.value else d
  }

  /**
   * The values the fields take when the dialog is created or opened. A
   * missing or empty string falls back to its default ('' for title,
   * caption and hashtags, '09:00', 'General Thought', 'Idea'); the date
   * falls back to the `date` prop when that is non-empty; a platform list,
   * even an empty one, is kept since an array is never falsy.
   */
  function InitialFields(initial: InitialValues, date: Option<string>): (f: Fields)
    ensures f.title == OrElse(initial.title, "")
    ensures f.platform == (if initial.platform.Some? then initial.platform.value else [])
    ensures f.caption == OrElse(initial.caption, "") && f.hashtags == OrElse(initial.hashtags, "")
    ensures f.file == initial.file
    ensures f.datetime == OrElse(initial.datetime, OrElse(date, ""))
    ensures f.time == OrElse(initial.time, "09:00")
    ensures f.category == OrElse(initial.category, "General Thought")
    ensures f.status == OrElse(initial.status, "Idea")
    ensures f.time != "" && f.category != "" && f.status != ""
  {
    Fields(
      OrElse(initial.title, ""),
      if initial.platform.Some? then initial.platform.value else [],
      OrElse(initial.caption, ""),
      OrElse(initial.hashtags, ""),
      initial.file,
      OrElse(initial.datetime, OrElse(date, "")),
      OrElse(initial.time, "09:00"),
      OrElse(initial.category, "General Thought"),
      OrElse(initial.status, "Idea"))
  }

  /** The submit guard: title, date and time must all be non-empty. */
  predicate Savable(f: Fields)
  {
    f.title != "" && f.datetime != "" && f.time != ""
  }

  /** The three platform buttons. */
  const PlatformChoices: seq<string> := ["LinkedIn", "Twitter", "Both"]

  /** What is on screen: nothing, or the form with its optional parts. */
  datatype View =
    | Hidden
    | Shown(fields: Fields, highlighted: seq<bool>, showDateInput: bool, showDeleteButton: bool)

  /** The dialog's state. */
  class PostModalState {
    var title: string
    var platform: seq<string>
    var caption: string
    var hashtags: string
    var file: Option<FileRef>
    var datetime: string
    var time: string
    var category: string
    var status: string

    /** The fields as one value. */
    function Current(): Fields
      reads this
    {
      Fields(title, platform, caption, hashtags, file, datetime, time, category, status)
    }

    /** The initial state: every field from `initial`, `date` or its default. */
    constructor(initial: InitialValues, date: Option<string>)
      ensures Current() == InitialFields(initial, date)
    {
      var f := InitialFields(initial, date);
      title, platform, caption, hashtags := f.title, f.platform, f.caption, f.hashtags;
      file, datetime, time, category, status := f.file, f.datetime, f.time, f.category, f.status;
    }

    /** The effect on `date`: a non-empty date prop replaces the date field; nothing else changes. */
    method DateChanged(date: Option<string>)
      modifies this
      ensures date.Some? && date.value != "" ==> Current() == old(Current()).(datetime := date.value)
      ensures date.None? || date.value == "" ==> Current() == old(Current())
    {
      if date.Some? && date.value != "" {
        datetime := date.value;
      }
    }

    /** The reset effect: while the dialog is open, every field is reset from `initial` and `date`. */
    method ResetOnOpen(open: bool, initial: InitialValues, date: Option<string>)
      modifies this
      ensures open ==> Current() == InitialFields(initial, date)
      ensures !open ==> Current() == old(Current())
    {
      if open {
        var f := InitialFields(initial, date);
        title, platform, caption, hashtags := f.title, f.platform, f.caption, f.hashtags;
        file, datetime, time, category, status := f.file, f.datetime, f.time, f.category, f.status;
      }
    }

    /**
     * What is rendered: nothing while closed; otherwise the form, with each
     * platform button highlighted iff the platform is selected, the date
     * input only without a `date` prop, and the delete button only with an
     * onDelete callback.
     */
    function Render(open: bool, date: Option<string>, hasOnDelete: bool): (v: View)
      reads this
      ensures v.Hidden? <==> !open
      ensures v.Shown? ==> v.fields == Current()
      ensures v.Shown? ==> |v.highlighted| == |PlatformChoices|
      ensures v.Shown? ==> forall i :: 0 <= i < |PlatformChoices| ==> (v.highlighted[i] <==> PlatformChoices[i] in platform)
      ensures v.Shown? ==> (v.showDateInput <==> date.None? || date.value == "")
      ensures v.Shown? ==> (v.showDeleteButton <==> hasOnDelete)
    {
      if !open then Hidden
      else
        var highlighted := [PlatformChoices[0] in platform, PlatformChoices[1] in platform, PlatformChoices[2] in platform];
        Shown(Current(), highlighted, date.None? || date.value == "", hasOnDelete)
    }

    /** A platform button: a selected platform is removed, another one is appended. */
    method TogglePlatform(p: string)
      modifies this
      ensures platform == Toggle(old(platform), p)
      ensures p in platform <==> p !in old(platform)
      ensures p !in old(platform) ==> platform == old(platform) + [p]
      ensures Current() == old(Current()).(platform := platform)
    {
      platform := Toggle(platform, p);
    }

    /**
     * The form's submit: with an empty title, date or time nothing happens;
     * otherwise onSave receives the current fields and onClose is called.
     */
    method Submit() returns (saved: Option<Fields>, closed: bool)
      ensures saved.None? <==> title == "" || datetime == "" || time == ""
      ensures saved.Some? ==> saved.value == Current() && Savable(saved.value)
      ensures closed <==> saved.Some?
    {
      if title == "" || datetime == "" || time == "" {
        return None, false;
      }
      saved := Some(Current());
      closed := true;
    }
  }

  /**
   * The delete button, present only with an onDelete callback: after the
   * user confirms, onDelete and then onClose are called.
   */
  function DeleteClicked(hasOnDelete: bool, confirmed: bool): (r: (bool, bool))
    ensures r.0 <==> hasOnDelete && confirmed
    ensures r.1 <==> r.0
  {
    if hasOnDelete && confirmed then (true, true) else (false, false)
  }

  /**
   * A freshly opened dialog can be saved straight away iff it was given a
   * title and a date, from `initial` or from the `date` prop: the time
   * always has its '09:00' default.
   */
  lemma OpenedSavable(initial: InitialValues, date: Option<string>)
    ensures Savable(InitialFields(initial, date)) <==>
      (initial.title.Some? && initial.title.value != "")
      && ((initial.datetime.Some? && initial.datetime.value != "") || (date.Some? && date.value != ""))
  {
  }

  /** With no `initial` prop the dialog opens blank, at 09:00, as a 'General Thought' 'Idea' on the given date. */
  lemma BlankDefaults(date: Option<string>)
    ensures InitialFields(NoInitialValues, date) ==
      Fields("", [], "", "", None, if date.Some? then date.value else "", "09:00", "General Thought", "Idea")
  {
  }

  /** Pressing the same platform button twice restores the selection. */
  lemma TogglePlatformTwice(platform: seq<string>, p: string)
    ensures forall q :: q in Toggle(Toggle(platform, p), p) <==> q in platform
    ensures p !in platform ==> Toggle(Toggle(platform, p), p) == platform
  {
    ToggleTwice(platform, p);
  }
}
