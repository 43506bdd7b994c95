/** The admin audio page: the `MM:SS` duration formatter (shared with the public audio
    page) and the save handler's guard and id choice. */
module AdminAudio {
  import opened Wrappers
  import opened Decimal
  import opened JsText
  import opened FrontendForms

  const ZeroDuration: string := "00:00"
  const RequiredAlert: string := "Nomi va muallif majburiy"
  const UploadAlert: string := "Upload xatoligi"

  /** A duration as the player reports it after `Math.floor`: missing (`undefined` or
      `null`), not a number, or a whole number of seconds. */
  datatype Seconds = Missing | NotANumber | Whole(n: int)

  /** `n.toString().padStart(2, '0')`. */
  function TwoDigits(n: int): string {
    PadStart2(NumberToString(n))
  }

  /** A field of a non-negative number reads back as that number, and a number below
      100 fills exactly two characters. */
  lemma TwoDigitsValue(n: nat)
    ensures AllDigits(TwoDigits(n)) && DecimalValue(TwoDigits(n)) == n
    ensures |TwoDigits(n)| >= 2
    ensures n < 100 ==> |TwoDigits(n)| == 2
  {
    var s := NumberToString(n);
    if |s| < 2 {
      LeadingZero(s);
    }
    if n < 100 {
      SmallRendering(n);
    }
  }

  /** A leading `0` does not change the value of a digit string. */
  lemma {:induction false} LeadingZero(s: string)
    requires AllDigits(s)
    ensures AllDigits("0" + s) && DecimalValue("0" + s) == DecimalValue(s)
    decreases |s|
  {
    if s != [] {
      var t := "0" + s;
      assert t[..|t| - 1] == "0" + s[..|s| - 1];
      LeadingZero(s[..|s| - 1]);
    } else {
      assert DecimalValue("0") == 0 * 10 + DigitValue('0');
    }
  }

  /** `mm:ss`: minutes and seconds, each padded to two digits, joined by `:`. */
  function Clock(mins: int, secs: int): string {
    TwoDigits(mins) + ":" + TwoDigits(secs)
  }

  /** `formatDuration`: `00:00` for a missing, non-numeric or zero duration; otherwise
      the whole minutes and the remaining seconds as a `Clock`. A negative duration
      keeps its minus signs, since JavaScript's `%` takes the sign of the dividend. */
  function FormatDuration(seconds: Seconds): (r: string)
    ensures !seconds.Whole? || seconds.n == 0 ==> r == ZeroDuration
    ensures seconds.Whole? && seconds.n > 0 ==> r == Clock(seconds.n / 60, seconds.n % 60)
    ensures seconds.Whole? && seconds.n < 0 ==> r == Clock(seconds.n / 60, TruncRem(seconds.n, 60))
  {
    if !seconds.Whole? || seconds.n == 0 then ZeroDuration
    else Clock(seconds.n / 60, TruncRem(seconds.n, 60))
  }

  /** A negative duration is shown with a leading minus sign: its minutes are
      negative, and `toString` writes the sign before the digits. */
  lemma FormatDurationNegative(n: int)
    requires n < 0
    ensures FormatDuration(Whole(n))[0] == '-'
  {
    var m := NumberToString(n / 60);
    assert m[0] == '-';
  }

  /** The two fields of an `MM:SS` text: the digits before the last three characters
      and the two digits after the colon. */
  function ClockFields(text: string): (r: Option<(string, string)>)
    ensures r.Some? ==>
      && AllDigits(r.value.0) && AllDigits(r.value.1) && |r.value.1| == 2
      && text == r.value.0 + ":" + r.value.1
  {
    if |text| >= 4 && text[|text| - 3] == ':' && AllDigits(text[..|text| - 3]) && AllDigits(text[|text| - 2..]) then
      assert text == text[..|text| - 3] + ":" + text[|text| - 2..];
      Some((text[..|text| - 3], text[|text| - 2..]))
    else None
  }

  /** Reading an `MM:SS` text back as a number of seconds. */
  function ReadDuration(text: string): (r: Option<int>)
    ensures r.Some? ==> r.value >= 0
  {
    match ClockFields(text)
    case None => None
    case Some((m, sec)) => Some(DecimalValue(m) * 60 + DecimalValue(sec))
  }

  /** Joining two digit fields and splitting the text again gives the fields back. */
  lemma ClockFieldsJoin(m: string, sec: string)
    requires m != [] && AllDigits(m) && AllDigits(sec) && |sec| == 2
    ensures ClockFields(m + ":" + sec) == Some((m, sec))
  {
    var text := m + ":" + sec;
    assert text[..|text| - 3] == m;
    assert text[|text| - 2..] == sec;
  }

  /** Formatting a whole non-negative duration and reading it back gives the duration:
      minutes times sixty plus seconds, with the seconds field always below 60. */
  lemma FormatDurationRoundTrip(s: nat)
    ensures ReadDuration(FormatDuration(Whole(s))) == Some(s)
  {
    if s == 0 {
      ReadZero();
    } else {
      var text := FormatDuration(Whole(s));
      assert text == Clock(s / 60, s % 60);
      ReadClock(s / 60, s % 60);
    }
  }

  /** A clock reads back as its minutes times sixty plus its seconds. */
  lemma ReadClock(mins: nat, secs: nat)
    requires secs < 60
    ensures ReadDuration(Clock(mins, secs)) == Some(mins * 60 + secs)
  {
    var m, sec := TwoDigits(mins), TwoDigits(secs);
    TwoDigitsValue(mins);
    TwoDigitsValue(secs);
    ReadJoin(m, sec, mins, secs);
  }

  /** Two joined digit fields read back as the first times sixty plus the second. */
  lemma ReadJoin(m: string, sec: string, mins: nat, secs: nat)
    requires m != [] && AllDigits(m) && AllDigits(sec) && |sec| == 2
    requires DecimalValue(m) == mins && DecimalValue(sec) == secs
    ensures ReadDuration(m + ":" + sec) == Some(mins * 60 + secs)
  {
    ClockFieldsJoin(m, sec);
  }

  /** `00:00` reads back as no time at all. */
  lemma ReadZero()
    ensures ReadDuration(ZeroDuration) == Some(0)
  {
    TwoDigitsValue(0);
    assert ZeroDuration == Clock(0, 0);
    ReadClock(0, 0);
  }

  /** The audio form: stored ids plus the files chosen in the two file inputs. */
  datatype AudioForm = AudioForm(name: JsValue, author: JsValue, publisher: string, genre: string, description: string,
                                 audioId: JsValue, imageId: JsValue, audioFile: Option<string>, imageFile: Option<string>)

  datatype AudioPayload = AudioPayload(name: JsValue, author: JsValue, publisher: string, genre: string, description: string,
                                       audioId: JsValue, imageId: JsValue)

  /** `handleSave`: without both a name and an author the form is refused. A chosen
      audio file, then a chosen image, is uploaded (`None` when the upload throws,
      which ends the save with an alert), and its answer replaces the form's id
      whatever it is; without a chosen file the form's id is sent. */
  function HandleSave(form: AudioForm, editId: Option<int>, audioUpload: Option<JsValue>, imageUpload: Option<JsValue>)
    : (r: Request<AudioPayload>)
    ensures r.Refused? <==> !Truthy(form.name) || !Truthy(form.author)
    ensures r.Refused? ==> r.alert == RequiredAlert
    ensures r.UploadFailed? <==>
      Truthy(form.name) && Truthy(form.author) &&
      ((form.audioFile.Some? && audioUpload.None?) || (form.imageFile.Some? && imageUpload.None?))
    ensures (r.Post? || r.Put?) ==>
      && (r.Put? <==> editId.Some? && editId.value != 0)
      && r.payload.name == form.name && r.payload.author == form.author
      && r.payload.publisher == form.publisher && r.payload.genre == form.genre
      && r.payload.description == form.description
      && r.payload.audioId == (if form.audioFile.Some? then audioUpload.value else form.audioId)
      && r.payload.imageId == (if form.imageFile.Some? then imageUpload.value else form.imageId)
  {
    if !Truthy(form.name) || !Truthy(form.author) then Refused(RequiredAlert)
    else if form.audioFile.Some? && audioUpload.None? then UploadFailed(UploadAlert)
    else if form.imageFile.Some? && imageUpload.None? then UploadFailed(UploadAlert)
    else
      var audioId := if form.audioFile.Some? then audioUpload.value else form.audioId;
      var imageId := if form.imageFile.Some? then imageUpload.value else form.imageId;
      Target(editId, AudioPayload(form.name, form.author, form.publisher, form.genre, form.description, audioId, imageId))
  }
}
