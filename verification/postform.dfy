/**
 * The post form of src/components/PostForm.tsx: its initial state, the
 * hashtag and platform list editing, the image handlers, and the submit
 * that turns the datetime-local text back into a stored instant. The
 * current time is the parameter `now`, the host offset `H` (minutes).
 */
module PostForm {
  import opened Optional
  import opened TimeMath
  import opened JsString
  import opened JsDate
  import opened IsoFormat
  import opened DateUtils
  import opened PostTypes
  import opened Lists

  /** The form's fields; the asset URL is a string, '' for none. */
  datatype FormData = FormData(
    title: string,
    platform: seq<Platform>,
    caption: string,
    hashtags: seq<string>,
    assetUrl: string,
    scheduledAt: string,
    postType: PostType,
    status: PostStatus)

  /**
   * formatDateTimeLocal: the IST date and clock of the string as
   * `YYYY-MM-DDTHH:MM`, i.e. formatDateForInput and formatTimeForInput
   * joined by 'T'; splitting it at 'T' gives the two parts back.
   */
  function FormatDateTimeLocal(s: string, now: int, H: int): (r: string)
    ensures r == FormatDateForInput(Str(s), now, H) + "T" + FormatTimeForInput(Str(s), now, H)
    ensures Split(r, 'T') == [FormatDateForInput(Str(s), now, H), FormatTimeForInput(Str(s), now, H)]
  {
    var x := ConvertToIST(Str(s), now, H);
    var date := DateInput(LocalYear(x, H), LocalMonth(x, H) + 1, LocalDate(x, H));
    var time := TimeInput(LocalHours(x, H), LocalMinutes(x, H));
    LocalTextSplit(x, H);
    date + "T" + time
  }

  /** The date and time texts of a local instant are joined by the only 'T' of the result. */
  lemma LocalTextSplit(x: int, H: int)
    ensures Split(DateInput(LocalYear(x, H), LocalMonth(x, H) + 1, LocalDate(x, H)) + "T" + TimeInput(LocalHours(x, H), LocalMinutes(x, H)), 'T')
      == [DateInput(LocalYear(x, H), LocalMonth(x, H) + 1, LocalDate(x, H)), TimeInput(LocalHours(x, H), LocalMinutes(x, H))]
  {
    DateInputNoT(LocalYear(x, H), LocalMonth(x, H) + 1, LocalDate(x, H));
    JoinAtT(DateInput(LocalYear(x, H), LocalMonth(x, H) + 1, LocalDate(x, H)), TimeInput(LocalHours(x, H), LocalMinutes(x, H)));
  }

  /** A text without 'T', a 'T' and a time text split back into the two texts. */
  lemma JoinAtT(date: string, time: string)
    requires 'T' !in date && |time| == 5 && AllDigits(time[..2]) && time[2] == ':' && AllDigits(time[3..])
    ensures Split(date + "T" + time, 'T') == [date, time]
  {
    SplitCons(date, 'T', time);
    assert 'T' !in time by {
      forall i | 0 <= i < 5 ensures time[i] != 'T' {
        if i < 2 { assert time[..2][i] == time[i]; }
        else if i > 2 { assert time[3..][i - 3] == time[i]; }
      }
    }
  }

  /** A date input's text holds no 'T'. */
  lemma DateInputNoT(y: int, m: nat, d: nat)
    requires m < 100 && d < 100
    ensures 'T' !in DateInput(y, m, d)
  {
    var Y := NatToString(if y < 0 then -y else y);
    assert DateInput(y, m, d) == IntToString(y) + "-" + Pad2(m) + "-" + Pad2(d);
    assert 'T' !in Y;
  }

  /**
   * The initial form: the post's fields when editing (a missing asset URL
   * becomes ''), otherwise an empty post on LinkedIn of type General
   * Thought with status Idea. The time field shows the stored time, or
   * getCurrentISTTime() when there is none, through formatDateTimeLocal.
   */
  function InitialForm(post: Option<Post>, now: int, H: int): (f: FormData)
    ensures post.None? ==>
      f.title == "" && f.platform == [LinkedIn] && f.caption == "" && f.hashtags == []
      && f.assetUrl == "" && f.postType == GeneralThought && f.status == Idea
    ensures post.Some? ==>
      f.title == post.value.title && f.platform == post.value.platform
      && f.caption == post.value.caption && f.hashtags == post.value.hashtags
      && f.postType == post.value.postType && f.status == post.value.status
    ensures post.Some? ==> (f.assetUrl == "" <==> post.value.assetUrl.None? || post.value.assetUrl == Some(""))
    ensures post.Some? && post.value.assetUrl.Some? ==> f.assetUrl == post.value.assetUrl.value
    ensures post.Some? && post.value.scheduledAt != "" ==> f.scheduledAt == FormatDateTimeLocal(post.value.scheduledAt, now, H)
    ensures post.None? || post.value.scheduledAt == "" ==>
      f.scheduledAt == FormatDateTimeLocal(ToIsoString(GetCurrentISTTime(now, H)), now, H)
  {
    var defaultTime := FormatDateTimeLocal(ToIsoString(GetCurrentISTTime(now, H)), now, H);
    match post
    case None => FormData("", [LinkedIn], "", [], "", defaultTime, GeneralThought, Idea)
    case Some(p) =>
      FormData(p.title, p.platform, p.caption, p.hashtags,
               if p.assetUrl.Some? then p.assetUrl.value else "",
               if p.scheduledAt != "" then FormatDateTimeLocal(p.scheduledAt, now, H) else defaultTime,
               p.postType, p.status)
  }

  /**
   * A new form's time field shows getCurrentISTTime() converted once more:
   * the IST wall clock of the instant 5.5 hours and H minutes after now.
   */
  lemma DefaultTimeShift(now: int, H: int, t: int)
    requires t == now + H * MsPerMinute + IST_OFFSET
    requires -999999 <= YearFromDay(Day(t)) <= 999999
    ensures InitialForm(None, now, H).scheduledAt
         == FormatDateForInput(Obj(Time(t)), now, H) + "T" + FormatTimeForInput(Obj(Time(t)), now, H)
  {
    calc {
      InitialForm(None, now, H).scheduledAt;
      FormatDateTimeLocal(ToIsoString(GetCurrentISTTime(now, H)), now, H);
      { assert GetCurrentISTTime(now, H) == t; }
      FormatDateTimeLocal(ToIsoString(t), now, H);
      { IsoText(t, now, H); }
      FormatDateForInput(Obj(Time(t)), now, H) + "T" + FormatTimeForInput(Obj(Time(t)), now, H);
    }
  }

  /** The datetime-local text of toISOString(t) is the IST date and time of t. */
  lemma IsoText(t: int, now: int, H: int)
    requires -999999 <= YearFromDay(Day(t)) <= 999999
    ensures FormatDateTimeLocal(ToIsoString(t), now, H)
         == FormatDateForInput(Obj(Time(t)), now, H) + "T" + FormatTimeForInput(Obj(Time(t)), now, H)
  {
    ParseIsoString(t, H);
    TextOfParsed(ToIsoString(t), t, now, H);
  }

  /** The datetime-local text of a string that parses as t is the text of t. */
  lemma TextOfParsed(s: string, t: int, now: int, H: int)
    requires ParseDate(s, H) == Time(t)
    ensures FormatDateTimeLocal(s, now, H)
         == FormatDateForInput(Obj(Time(t)), now, H) + "T" + FormatTimeForInput(Obj(Time(t)), now, H)
  {
    FormatSameInstant(s, t, now, H);
  }

  /**
   * addHashtag on the tag list: the trimmed input is appended when it is
   * non-empty and not yet present; otherwise the list is unchanged. A list
   * without duplicates keeps none, and grows by at most one.
   */
  function AddTag(tags: seq<string>, input: string): (r: seq<string>)
    ensures Trim(input) == "" || Trim(input) in tags ==> r == tags
    ensures Trim(input) != "" && Trim(input) !in tags ==> r == tags + [Trim(input)]
    ensures NoDuplicates(tags) ==> NoDuplicates(r)
    ensures |tags| <= |r| <= |tags| + 1
  {
    var tag := Trim(input);
    if tag != "" && tag !in tags then tags + [tag] else tags
  }

  /** removeHashtag on the tag list: every copy of the tag goes, the rest keep their order. */
  function RemoveTag(tags: seq<string>, tag: string): (r: seq<string>)
    ensures tag !in r
    ensures forall h :: h != tag ==> (h in r <==> h in tags)
    ensures IsSubsequence(r, tags)
    ensures tag !in tags ==> r == tags
  {
    FilterSubsequence(tags, h => h != tag);
    assert tag !in tags ==> Filter(tags, h => h != tag) == tags by {
      if tag !in tags {
        FilterKeepsAll(tags, h => h != tag);
      }
    }
    Filter(tags, h => h != tag)
  }

  /** What handleSubmit does: raise an alert, or call onSubmit with the post data. */
  datatype SubmitOutcome = Alert(message: string) | Submitted(data: PostData)

  /** The two halves `const [datePart, timePart] = scheduledAt.split('T')` destructures; a missing one is None. */
  function DateTimeParts(scheduledAt: string): (r: (string, Option<string>))
    ensures r.0 == Split(scheduledAt, 'T')[0]
    ensures r.1.Some? <==> |Split(scheduledAt, 'T')| >= 2
    ensures r.1.Some? ==> r.1.value == Split(scheduledAt, 'T')[1]
  {
    var parts := Split(scheduledAt, 'T');
    (parts[0], if |parts| >= 2 then Some(parts[1]) else None)
  }

  /**
   * handleSubmit on form data: an empty or missing date or time part raises
   * 'Error creating post: Invalid datetime format' and submits nothing;
   * otherwise every field is submitted as it is, except the time, which is
   * createISTDateTime(datePart, timePart).toISOString().
   */
  function Submit(f: FormData, now: int, H: int): (r: SubmitOutcome)
    ensures var (datePart, timePart) := DateTimeParts(f.scheduledAt);
      r.Alert? <==> datePart == "" || timePart.None? || timePart == Some("")
    ensures r.Alert? ==> r.message == "Error creating post: Invalid datetime format"
    ensures r.Submitted? ==>
      r.data.title == f.title && r.data.platform == f.platform && r.data.caption == f.caption
      && r.data.hashtags == f.hashtags && r.data.assetUrl == Some(f.assetUrl)
      && r.data.postType == f.postType && r.data.status == f.status
    ensures r.Submitted? ==>
      r.data.scheduledAt == ToIsoString(CreateISTDateTime(DateTimeParts(f.scheduledAt).0, DateTimeParts(f.scheduledAt).1.value, now, H))
  {
    var (datePart, timePart) := DateTimeParts(f.scheduledAt);
    if datePart == "" || timePart.None? || timePart.value == "" then
      Alert("Error creating post: " + "Invalid datetime format")
    else
      var instant := CreateISTDateTime(datePart, timePart.value, now, H);
      Submitted(PostData(f.title, f.platform, f.caption, f.hashtags, Some(f.assetUrl),
                         ToIsoString(instant), f.postType, f.status))
  }

  /** Time text without a 'T' is refused before anything is submitted. */
  lemma SubmitNeedsT(f: FormData, now: int, H: int)
    requires 'T' !in f.scheduledAt
    ensures Submit(f, now, H) == Alert("Error creating post: Invalid datetime format")
  {
    SplitFirst(f.scheduledAt, 'T');
  }

  /** The time field of a form opened on a post splits into its non-empty IST date and time texts. */
  lemma EditFormParts(post: Post, now: int, H: int)
    requires post.scheduledAt != ""
    ensures DateTimeParts(InitialForm(Some(post), now, H).scheduledAt)
         == (FormatDateForInput(Str(post.scheduledAt), now, H), Some(FormatTimeForInput(Str(post.scheduledAt), now, H)))
    ensures FormatDateForInput(Str(post.scheduledAt), now, H) != ""
  {
    var x := ConvertToIST(Str(post.scheduledAt), now, H);
    assert |DateInput(LocalYear(x, H), LocalMonth(x, H) + 1, LocalDate(x, H))| > 0;
  }

  /** A string is formatted as the instant it parses to. */
  lemma FormatSameInstant(s: string, t: int, now: int, H: int)
    requires ParseDate(s, H) == Time(t)
    ensures FormatDateForInput(Str(s), now, H) == FormatDateForInput(Obj(Time(t)), now, H)
    ensures FormatTimeForInput(Str(s), now, H) == FormatTimeForInput(Obj(Time(t)), now, H)
  {
    assert ConvertToIST(Str(s), now, H) == ConvertToIST(Obj(Time(t)), now, H);
  }

  /** Non-empty date and time parts are submitted through createISTDateTime. */
  lemma SubmitParts(f: FormData, ds: string, ts: string, now: int, H: int)
    requires DateTimeParts(f.scheduledAt) == (ds, Some(ts)) && ds != "" && ts != ""
    ensures Submit(f, now, H).Submitted?
    ensures Submit(f, now, H).data.scheduledAt == ToIsoString(CreateISTDateTime(ds, ts, now, H))
  {
  }

  /**
   * Opening a post for editing and saving it unchanged stores its time
   * truncated to the minute and moved by the host offset: on a UTC host the
   * stored instant is the original one to the minute; elsewhere it moves by
   * H minutes on every save.
   */
  lemma EditSaveUnchanged(post: Post, t: int, now: int, now': int, H: int)
    requires post.scheduledAt != "" && ParseDate(post.scheduledAt, H) == Time(t)
    requires YearFromDay(Day(t + IST_OFFSET)) >= 100
    ensures Submit(InitialForm(Some(post), now, H), now', H).Submitted?
    ensures Submit(InitialForm(Some(post), now, H), now', H).data.scheduledAt
         == ToIsoString(t - t % MsPerMinute + H * MsPerMinute)
  {
    var f := InitialForm(Some(post), now, H);
    var ds, ts := FormatDateForInput(Obj(Time(t)), now, H), FormatTimeForInput(Obj(Time(t)), now, H);
    FormatSameInstant(post.scheduledAt, t, now, H);
    EditFormParts(post, now, H);
    assert ts != "";
    SubmitParts(f, ds, ts, now', H);
    FormatCreateRoundTrip(t, now, now', H);
    assert CreateISTDateTime(ds, ts, now', H) == t - t % MsPerMinute + H * MsPerMinute;
  }

  /** The form's state: its fields and the hashtag input box. */
  class PostFormState {
    var formData: FormData
    var hashtagInput: string

    /** The initial state for the post being edited, or for a new post. */
    constructor(post: Option<Post>, now: int, H: int)
      ensures formData == InitialForm(post, now, H) && hashtagInput == ""
    {
      formData := InitialForm(post, now, H);
      hashtagInput := "";
    }

    /** Typing into the hashtag box. */
    method SetHashtagInput(s: string)
      modifies this
      ensures hashtagInput == s && formData == old(formData)
    {
      hashtagInput := s;
    }

    /** Editing the datetime-local input. */
    method SetScheduledAt(s: string)
      modifies this
      ensures formData == old(formData).(scheduledAt := s) && hashtagInput == old(hashtagInput)
    {
      formData := formData.(scheduledAt := s);
    }

    /**
     * addHashtag: a new, non-blank trimmed tag is appended and the box
     * cleared; otherwise nothing changes.
     */
    method AddHashtag()
      modifies this
      ensures formData == old(formData).(hashtags := AddTag(old(formData.hashtags), old(hashtagInput)))
      ensures var tag := Trim(old(hashtagInput));
        hashtagInput == (if tag != "" && tag !in old(formData.hashtags) then "" else old(hashtagInput))
    {
      var tag := Trim(hashtagInput);
      if tag != "" && tag !in formData.hashtags {
        formData := formData.(hashtags := formData.hashtags + [tag]);
        hashtagInput := "";
      }
    }

    /** removeHashtag. */
    method RemoveHashtag(tag: string)
      modifies this
      ensures formData == old(formData).(hashtags := RemoveTag(old(formData.hashtags), tag))
      ensures hashtagInput == old(hashtagInput)
    {
      formData := formData.(hashtags := RemoveTag(formData.hashtags, tag));
    }

    /** togglePlatform: a present platform is removed, an absent one appended. */
    method TogglePlatform(p: Platform)
      modifies this
      ensures formData == old(formData).(platform := Toggle(old(formData.platform), p))
      ensures p in formData.platform <==> p !in old(formData.platform)
      ensures hashtagInput == old(hashtagInput)
    {
      formData := formData.(platform := Toggle(formData.platform, p));
    }

    /** handleImageUploaded: the URL becomes the asset URL. */
    method HandleImageUploaded(url: string)
      modifies this
      ensures formData == old(formData).(assetUrl := url) && hashtagInput == old(hashtagInput)
    {
      formData := formData.(assetUrl := url);
    }

    /** handleImageRemoved: the asset URL is cleared. */
    method HandleImageRemoved()
      modifies this
      ensures formData == old(formData).(assetUrl := "") && hashtagInput == old(hashtagInput)
    {
      formData := formData.(assetUrl := "");
    }

    /** handleSubmit: what the current fields submit; the form's state is not changed. */
    method HandleSubmit(now: int, H: int) returns (r: SubmitOutcome)
      ensures r == Submit(formData, now, H)
    {
      r := Submit(formData, now, H);
    }
  }
}
