/**
 The data paths of one `RichTextEditor` (RichTextEditor.js): what it draws,
 how the `Notes` cell becomes the editor's HTML on load, how an edit is
 cached, how Save routes the sanitized markdown of the live content through
 the 500 ms debounce to the record, and how a confirmed image is appended
 to the content.  The showdown converter and the attachment-url lookup of
 the Airtable SDK are parameters.
 */
module EditorSession {
  import opened JsValues
  import opened Strings
  import opened Sanitizer
  import Debounce
  import ImagePicker
  import LoadGate

  /** showdown's `makeHtml` and `makeMarkdown`, kept abstract. */
  datatype Converter = Converter(makeHtml: string -> string, makeMarkdown: string -> string)

  /** The text shown for an empty `Notes` cell. */
  const Placeholder := "Add some notes :)"

  /** The delay of the debounced record write, in milliseconds. */
  const SaveDelay: nat := 500

  /** The argument of `table.updateRecordAsync`: `{'Notes': markdown}`. */
  datatype Update = NotesUpdate(notes: JsString)

  /**
   One mounted editor: the markdown cached by the last edit, the live editor
   content, whether the image picker is open, and the debounced writer.
   */
  datatype Session = Session(
    cached: JsString,
    content: string,
    showPicker: bool,
    writer: Debounce.Debouncer<Update>)

  /** What the component draws: the "Pick a record" message, or what the load gate decides. */
  datatype Screen = PickRecord | Drawn(view: LoadGate.View)

  /**
   The component's output: the "Pick a record" message without a table or a
   record, the spinner until the script has loaded, the editor after that.
   */
  function View(table: JsString, recordId: JsString, scriptLoaded: bool): (v: Screen)
    ensures v == PickRecord <==> Falsy(table) || Falsy(recordId)
    ensures v == Drawn(LoadGate.Spinner) <==> !Falsy(table) && !Falsy(recordId) && !scriptLoaded
    ensures v == Drawn(LoadGate.EditorView) <==> !Falsy(table) && !Falsy(recordId) && scriptLoaded
  {
    if Falsy(table) || Falsy(recordId) then PickRecord
    else Drawn(LoadGate.FlagView(scriptLoaded))
  }

  /**
   A new editor on a record's `Notes` cell: nothing cached, picker closed, no
   write scheduled, and the content the HTML of the sanitized notes.
   */
  function Mount(conv: Converter, cell: JsString): (s: Session)
    ensures s.cached == Undefined && !s.showPicker
    ensures s.content == InitialHtml(conv, cell)
    ensures s.writer.time == SaveDelay && s.writer.pending.None?
  {
    Session(Undefined, InitialHtml(conv, cell), false, Debounce.New(SaveDelay))
  }

  // ---------------------------------------------------------------- load

  /** The `Notes` cell with a falsy value replaced by the placeholder, then sanitized. */
  function LoadedNotes(cell: JsString): (notes: string)
    ensures Falsy(cell) ==> notes == Placeholder
    ensures !Falsy(cell) ==> Str(notes) == SanitizeMarkdown(cell)
  {
    var n := if Falsy(cell) then Str(Placeholder) else cell;
    PlaceholderIsKept(Placeholder);
    SanitizeMarkdown(n).value
  }

  /** The HTML the editor is given on load. */
  function InitialHtml(conv: Converter, cell: JsString): (html: string)
    ensures Falsy(cell) ==> html == conv.makeHtml(Placeholder)
    ensures !Falsy(cell) ==> html == conv.makeHtml(SanitizeMarkdown(cell).value)
  {
    conv.makeHtml(LoadedNotes(cell))
  }

  /** The placeholder has nothing for the sanitizer to rewrite. */
  lemma PlaceholderIsKept(p: string)
    requires p == Placeholder
    ensures SanitizeMarkdown(Str(p)) == Str(p)
  {
    assert '<' !in p && '(' !in p && '[' !in p by {
      assert forall i :: 0 <= i < |p| ==> p[i] != '<' && p[i] != '(' && p[i] != '[';
    }
    PlainTextIsKept(p);
  }

  // ---------------------------------------------------------------- change and save

  /** The sanitized markdown of some editor content. */
  function MarkdownOf(conv: Converter, content: string): (md: JsString)
    ensures md.Str?
    ensures conv.makeMarkdown(content) == "" ==> md == Str("")
    ensures md.value != "" ==> !Occurs("](", md.value) && TaskMarkersListed(md.value)
  {
    SanitizeMarkdown(Str(conv.makeMarkdown(content)))
  }

  /** `handleEditorChange`: the new content's sanitized markdown is cached and nothing is written. */
  function OnEditorChange(s: Session, conv: Converter, content: string): (r: Session)
    ensures r.cached == MarkdownOf(conv, content) && r.content == content
    ensures r.writer == s.writer && r.showPicker == s.showPicker
  {
    s.(cached := MarkdownOf(conv, content), content := content)
  }

  /**
   `handleNoteSaved`: the live content is converted and sanitized and the
   write of `{'Notes': markdown}` is handed to the debounce.
   */
  function OnSave(s: Session, conv: Converter, now: nat): (r: Session)
    requires s.writer.time == SaveDelay
    ensures r.writer.time == SaveDelay
    ensures r.writer.pending == Some(Debounce.Pending(NotesUpdate(MarkdownOf(conv, s.content)), now + SaveDelay))
    ensures r.cached == s.cached && r.content == s.content && r.showPicker == s.showPicker
  {
    s.(writer := Debounce.Call(s.writer, NotesUpdate(MarkdownOf(conv, s.content)), now))
  }

  /** The result of letting the clock run: the session and the write it made, if any. */
  datatype TickOutcome = TickOutcome(session: Session, write: Option<Update>)

  /** The clock reaches `now`: a due write reaches the record. */
  function OnTick(s: Session, now: nat): (r: TickOutcome)
    ensures r.write == Debounce.Tick(s.writer, now).fired
    ensures r.session == s.(writer := Debounce.Tick(s.writer, now).next)
  {
    var t := Debounce.Tick(s.writer, now);
    TickOutcome(s.(writer := t.next), t.fired)
  }

  /**
   Save at `now`: no write happens before `now + 500`; at that instant the
   record receives the sanitized markdown of the content as it was at Save,
   whatever edits came in between.
   */
  lemma SaveWritesAfterDelay(s: Session, conv: Converter, now: nat, edits: seq<string>, early: nat, late: nat)
    requires s.writer.time == SaveDelay
    requires early < now + SaveDelay <= late
    ensures OnTick(EditAll(OnSave(s, conv, now), conv, edits), early).write.None?
    ensures OnTick(EditAll(OnSave(s, conv, now), conv, edits), late).write
      == Some(NotesUpdate(MarkdownOf(conv, s.content)))
  {
    EditsNeverWrite(OnSave(s, conv, now), conv, edits);
  }

  /** Edits alone never write: after any number of them the writer is as it was. */
  lemma {:induction false} EditsNeverWrite(s: Session, conv: Converter, edits: seq<string>)
    ensures EditAll(s, conv, edits).writer == s.writer
    decreases |edits|
  {
    if |edits| > 0 {
      EditsNeverWrite(OnEditorChange(s, conv, edits[0]), conv, edits[1..]);
    }
  }

  /** A run of edits. */
  function EditAll(s: Session, conv: Converter, edits: seq<string>): Session
    decreases |edits|
  {
    if |edits| == 0 then s else EditAll(OnEditorChange(s, conv, edits[0]), conv, edits[1..])
  }

  // ---------------------------------------------------------------- images

  /** The toolbar's image button opens the picker. */
  function OpenImagePicker(s: Session): (r: Session)
    ensures r.showPicker && r == s.(showPicker := true)
  {
    s.(showPicker := true)
  }

  /** The tag appended for an image url: the url sits between `<img src="` and `" width="900">`. */
  function ImgTag(url: string): (tag: string)
    ensures |tag| == |url| + 24
    ensures tag[..10] == "<img src=\"" && tag[|tag| - 14..] == "\" width=\"900\">"
    ensures tag[10..|tag| - 14] == url
  {
    "<img src=\"" + url + "\" width=\"900\">"
  }

  /** Different urls give different tags. */
  lemma ImgTagInjective(a: string, b: string)
    ensures ImgTag(a) == ImgTag(b) <==> a == b
  {
    if ImgTag(a) == ImgTag(b) {
      assert a == ImgTag(a)[10..|ImgTag(a)| - 14];
    }
  }

  /** `handleImageConfirmed`'s outcome: the content grew, or `split` threw on a missing selection. */
  datatype Confirmation = Appended(session: Session) | TypeError(session: Session)

  /**
   `handleImageConfirmed`: the picker is closed; a selection that is `null`
   or `undefined` cannot be split and throws; otherwise the token is split on
   a space, its two pieces resolved to a url, and the image tag appended.
   */
  function OnImageConfirmed(s: Session, selected: JsString, resolve: (string, JsString) -> string): (r: Confirmation)
    ensures !r.session.showPicker
    ensures r.TypeError? <==> !selected.Str?
    ensures r.TypeError? ==> r.session == s.(showPicker := false)
    ensures r.Appended? ==> r.session.cached == s.cached && r.session.writer == s.writer
    ensures r.Appended? ==> s.content <= r.session.content
    ensures r.Appended? ==>
      r.session.content == s.content + ImgTag(resolve(ImagePicker.Decode(selected.value).id, ImagePicker.Decode(selected.value).url))
  {
    var closed := s.(showPicker := false);
    if !selected.Str? then TypeError(closed)
    else
      var d := ImagePicker.Decode(selected.value);
      Appended(closed.(content := s.content + ImgTag(resolve(d.id, d.url))))
  }

  /** `handleImageCanceled`: only the picker closes. */
  function OnImageCanceled(s: Session): (r: Session)
    ensures !r.showPicker && r == s.(showPicker := false)
  {
    s.(showPicker := false)
  }

  /** Opening the picker and cancelling it leaves a session with the picker closed as it was. */
  lemma CancelUndoesOpen(s: Session)
    requires !s.showPicker
    ensures OnImageCanceled(OpenImagePicker(s)) == s
    ensures OpenImagePicker(s) != s
  {
  }

  /**
   Opening the picker on a record with files and confirming the preselected
   option appends the tag of the file that sorts first, resolved from its id
   and url when neither contains a space.
   */
  lemma ConfirmFirstFileAppendsItsTag(s: Session, cell: Option<seq<ImagePicker.Attachment>>,
                                      resolve: (string, JsString) -> string)
    requires |ImagePicker.Files(cell)| > 0
    requires forall f :: f in ImagePicker.Files(cell) ==> ' ' !in f.id && ' ' !in f.url
    ensures exists f :: (f in ImagePicker.Files(cell)
      && (forall g :: g in ImagePicker.Files(cell) ==> ImagePicker.Before(f, g))
      && OnImageConfirmed(OpenImagePicker(s), ImagePicker.Confirm(ImagePicker.Open(cell)).selection, resolve)
         == Appended(s.(showPicker := false, content := s.content + ImgTag(resolve(f.id, Str(f.url))))))
  {
    var files := ImagePicker.Files(cell);
    ImagePicker.InitialSelectionIsFirstFile(cell);
    var m :| 0 <= m < |files|
      && ImagePicker.InitialSelection(ImagePicker.ImageOptions(cell)) == Str(ImagePicker.Encode(files[m].id, files[m].url))
      && (forall g :: g in files ==> ImagePicker.Before(files[m], g))
      && (forall j :: 0 <= j < m ==> ImagePicker.Less(ImagePicker.Key(files[m]), ImagePicker.Key(files[j])));
    var f := files[m];
    assert f in files;
    ImagePicker.TokenRoundTrip(f.id, f.url);
  }

  /**
   Choosing the `i`-th option and confirming appends the tag of the `i`-th
   file in sort order, resolved from that file's id and url when no file's
   id or url contains a space.
   */
  lemma ConfirmChosenAppendsItsTag(s: Session, cell: Option<seq<ImagePicker.Attachment>>, i: nat,
                                   resolve: (string, JsString) -> string)
    requires i < |ImagePicker.ImageOptions(cell)|
    requires forall f :: f in ImagePicker.Files(cell) ==> ' ' !in f.id && ' ' !in f.url
    ensures var sorted := ImagePicker.SortFiles(ImagePicker.Files(cell));
      var picker := ImagePicker.Open(cell);
      && i < |sorted|
      && OnImageConfirmed(OpenImagePicker(s),
           ImagePicker.Confirm(ImagePicker.Choose(picker, Str(picker.options[i].value))).selection, resolve)
         == Appended(s.(showPicker := false, content := s.content + ImgTag(resolve(sorted[i].id, Str(sorted[i].url)))))
  {
    var sorted := ImagePicker.SortFiles(ImagePicker.Files(cell));
    var f := sorted[i];
    assert ImagePicker.ImageOptions(cell)[i] == ImagePicker.MapImage(f);
    assert f in multiset(sorted);
    assert f in ImagePicker.Files(cell);
    ImagePicker.TokenRoundTrip(f.id, f.url);
  }

  /** Confirming with nothing selected, as on a record without files, throws. */
  lemma ConfirmWithoutFilesThrows(s: Session, cell: Option<seq<ImagePicker.Attachment>>,
                                  resolve: (string, JsString) -> string)
    requires |ImagePicker.Files(cell)| == 0
    ensures OnImageConfirmed(OpenImagePicker(s), ImagePicker.Confirm(ImagePicker.Open(cell)).selection, resolve).TypeError?
  {
  }
}
