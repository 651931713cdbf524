/** The achievement-detail dialog: the notes box keeps at most 255
    characters, the minutes box keeps a non-negative whole number, and
    submitting assembles the multipart form of the upload request field by
    field. */
module AchievementModal {
  import opened Common
  import opened Decimal

  /** The `maxLength` of the notes box; the `notes` column itself is unbounded text. */
  const NotesMaxLength := 255

  /** A chosen image file; only its identity matters here. */
  datatype Photo = Photo(name: string)

  datatype FormValue = TextValue(text: string) | FileValue(file: Photo)

  /** One `formData.append(name, value)`. */
  datatype FormField = FormField(name: string, value: FormValue)

  /** The notes box's `onChange`: `value.slice(0, 255)`. */
  function ClipNotes(text: string): (r: string)
    ensures |r| == Min(|text|, NotesMaxLength)
    ensures r == text[..|r|]
    ensures |text| <= NotesMaxLength ==> r == text
  {
    JsSlice(text, 0, NotesMaxLength)
  }

  /** Clipping what is already clipped changes nothing. */
  lemma ClipIdempotent(text: string)
    ensures ClipNotes(ClipNotes(text)) == ClipNotes(text)
  {
  }

  /** The minutes box's `onChange`: `Math.max(0, parseInt(value) || 0)`. */
  function ClampDuration(value: string): (d: nat)
    ensures ParseIntJs(value).None? ==> d == 0
    ensures ParseIntJs(value).Some? ==> d == Max(0, ParseIntJs(value).value)
  {
    Max(0, ParseIntJs(value).GetOr(0))
  }

  /** What the box shows a typed number gives exactly: a non-negative
      whole number is kept (a fraction dropped), a negative one becomes 0,
      and text that does not start with a number becomes 0. */
  lemma ClampDurationMeaning(n: int, rest: string, junk: string)
    requires rest == [] || !IsDigit(rest[0])
    requires junk == [] || (!IsDigit(junk[0]) && !IsSign(junk[0]))
    ensures ClampDuration(IntToDecimal(n) + rest) == Max(0, n)
    ensures ClampDuration(junk) == 0
  {
    ParseIntJsOfDecimal(n, rest);
    assert Magnitude(junk) == junk;
  }

  /** The value of the first field called `name`, if any. */
  function Lookup(form: seq<FormField>, name: string): Option<FormValue> {
    if form == [] then None
    else if form[0].name == name then Some(form[0].value)
    else Lookup(form[1..], name)
  }

  predicate DistinctNames(form: seq<FormField>) {
    forall i, j :: 0 <= i < j < |form| ==> form[i].name != form[j].name
  }

  /** Looking up a name present at position `k` of a form with distinct
      names finds the value there; an absent name finds nothing. */
  lemma {:induction false} LookupAt(form: seq<FormField>, name: string)
    requires DistinctNames(form)
    ensures Lookup(form, name).None? <==> forall k :: 0 <= k < |form| ==> form[k].name != name
    ensures forall k :: 0 <= k < |form| && form[k].name == name ==> Lookup(form, name) == Some(form[k].value)
  {
    if form != [] {
      var tail := form[1..];
      assert DistinctNames(tail) by {
        forall i, j | 0 <= i < j < |tail| ensures tail[i].name != tail[j].name {
          assert tail[i] == form[i + 1] && tail[j] == form[j + 1];
        }
      }
      LookupAt(tail, name);
      forall k | 0 <= k < |form| && form[k].name == name ensures Lookup(form, name) == Some(form[k].value) {
        if k > 0 {
          assert tail[k - 1] == form[k];
        }
      }
      forall k | 0 < k < |form| ensures (form[k].name == name) == (tail[k - 1].name == name) {
        assert tail[k - 1] == form[k];
      }
    }
  }

  /** `handleHabitDetails`: no route id, or an empty one, sends nothing.
      Otherwise the form starts with the habit id and today's date, then
      holds the notes only when there are some, the minutes only when they
      are not zero, and the photo only when one was chosen. */
  method HandleHabitDetails(id: Option<string>, today: string, text: string, duration: int, photo: Option<Photo>)
    returns (form: Option<seq<FormField>>)
    ensures form.None? <==> id.None? || id.value == ""
    ensures form.Some? ==>
              var f := form.value;
              |f| >= 2 && DistinctNames(f) &&
              f[0] == FormField("habitId", TextValue(id.value)) &&
              f[1] == FormField("achievementDate", TextValue(today)) &&
              Lookup(f, "notes") == (if text != "" then Some(TextValue(text)) else None) &&
              Lookup(f, "duration") == (if duration != 0 then Some(TextValue(IntToDecimal(duration))) else None) &&
              Lookup(f, "photo") == (if photo.Some? then Some(FileValue(photo.value)) else None) &&
              |f| == 2 + (if text != "" then 1 else 0) + (if duration != 0 then 1 else 0) + (if photo.Some? then 1 else 0)
  {
    if id.None? || id.value == "" {
      return None;
    }
    var formData: seq<FormField> := [];
    formData := formData + [FormField("habitId", TextValue(id.value))];
    formData := formData + [FormField("achievementDate", TextValue(today))];
    ghost var names: seq<string> := ["habitId", "achievementDate"];
    ghost var notesAt := |formData|;
    if text != "" {
      formData := formData + [FormField("notes", TextValue(text))];
      names := names + ["notes"];
    }
    ghost var durationAt := |formData|;
    if duration != 0 {
      formData := formData + [FormField("duration", TextValue(IntToDecimal(duration)))];
      names := names + ["duration"];
    }
    ghost var photoAt := |formData|;
    if photo.Some? {
      formData := formData + [FormField("photo", FileValue(photo.value))];
      names := names + ["photo"];
    }
    assert text != "" ==> formData[notesAt] == FormField("notes", TextValue(text));
    assert duration != 0 ==> formData[durationAt] == FormField("duration", TextValue(IntToDecimal(duration)));
    assert photo.Some? ==> formData[photoAt] == FormField("photo", FileValue(photo.value));
    assert forall k :: 0 <= k < |formData| ==> formData[k].name == names[k];
    assert forall i, j :: 0 <= i < j < |names| ==> names[i] != names[j];
    LookupAt(formData, "notes");
    LookupAt(formData, "duration");
    LookupAt(formData, "photo");
    form := Some(formData);
  }
}
