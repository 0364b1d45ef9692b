/**
 The image picker dialog (ImagePicker.js) and the token it hands back to the
 editor: the record's `Files` attachments sorted case-insensitively by file
 name, one select option per file whose value is `"<id> <url>"`, the first
 option preselected, and on confirmation the selected value split on a space
 again by the editor (RichTextEditor.js lines 217-224).
 */
module ImagePicker {
  import opened JsValues
  import opened Strings

  /** An attachment in the `Files` cell. */
  datatype Attachment = Attachment(id: string, url: string, filename: string)

  /** An option of the select box; `caption` is its `label`. */
  datatype SelectOption = SelectOption(value: string, caption: string)

  // ---------------------------------------------------------------- ordering

  /** `toUpperCase` on one character, restricted to ASCII letters. */
  function UpperChar(c: char): (u: char)
    ensures 'a' <= c <= 'z' ==> u as int == c as int - 32
    ensures !('a' <= c <= 'z') ==> u == c
    ensures !('a' <= u <= 'z')
  {
    if 'a' <= c <= 'z' then (c as int - 32) as char else c
  }

  /** `toUpperCase` on a string, character by character. */
  function Upper(s: string): (u: string)
    ensures |u| == |s|
    ensures forall i :: 0 <= i < |s| ==> u[i] == UpperChar(s[i])
  {
    seq(|s|, i requires 0 <= i < |s| => UpperChar(s[i]))
  }

  /** String `<`, lexicographic by code point with a proper prefix first (JavaScript compares UTF-16 code units). */
  predicate Less(a: string, b: string)
    decreases |a|
  {
    if |a| == 0 then |b| > 0
    else if |b| == 0 then false
    else if a[0] != b[0] then a[0] < b[0]
    else Less(a[1..], b[1..])
  }

  lemma {:induction false} LessIrreflexive(a: string)
    ensures !Less(a, a)
    decreases |a|
  {
    if |a| > 0 {
      LessIrreflexive(a[1..]);
    }
  }

  /** Of two different strings exactly one is less than the other. */
  lemma {:induction false} LessTrichotomy(a: string, b: string)
    ensures a == b || Less(a, b) || Less(b, a)
    ensures !(Less(a, b) && Less(b, a))
    decreases |a|
  {
    if |a| > 0 && |b| > 0 && a[0] == b[0] {
      LessTrichotomy(a[1..], b[1..]);
      if a[1..] == b[1..] {
        assert a == [a[0]] + a[1..] && b == [b[0]] + b[1..];
      }
    }
  }

  lemma {:induction false} LessTransitive(a: string, b: string, c: string)
    requires Less(a, b) && Less(b, c)
    ensures Less(a, c)
    decreases |a|
  {
    if |a| > 0 && a[0] == b[0] && b[0] == c[0] {
      LessTransitive(a[1..], b[1..], c[1..]);
    }
  }

  /** The sort key of a file: its upper-cased name. */
  function Key(f: Attachment): string
  {
    Upper(f.filename)
  }

  /** `f` may come before `g`: its key is not greater. */
  predicate Before(f: Attachment, g: Attachment)
  {
    !Less(Key(g), Key(f))
  }

  lemma BeforeTotal(f: Attachment, g: Attachment)
    ensures Before(f, g) || Before(g, f)
  {
    LessTrichotomy(Key(f), Key(g));
  }

  lemma BeforeTransitive(f: Attachment, g: Attachment, h: Attachment)
    requires Before(f, g) && Before(g, h)
    ensures Before(f, h)
  {
    LessTrichotomy(Key(f), Key(g));
    LessTrichotomy(Key(g), Key(h));
    if Less(Key(h), Key(f)) {
      if Key(f) == Key(g) {
      } else if Key(g) == Key(h) {
      } else {
        LessTransitive(Key(h), Key(f), Key(g));
      }
    }
  }

  /**
   `sortImages`: 1 when `a`'s upper-cased name is greater, -1 when it is
   smaller, 0 when the two are equal.
   */
  function SortImages(a: Attachment, b: Attachment): (r: int)
    ensures r == -1 || r == 0 || r == 1
    ensures r == 1 <==> Less(Key(b), Key(a))
    ensures r == 0 ==> Key(a) == Key(b)
  {
    if Less(Key(b), Key(a)) then 1
    else if Less(Key(a), Key(b)) then -1
    else (LessTrichotomy(Key(a), Key(b)); 0)
  }

  /** The comparator is antisymmetric and is zero exactly on equal upper-cased names. */
  lemma SortImagesAntisymmetric(a: Attachment, b: Attachment)
    ensures SortImages(a, b) == -SortImages(b, a)
    ensures SortImages(a, b) == 0 <==> Upper(a.filename) == Upper(b.filename)
  {
    LessTrichotomy(Key(a), Key(b));
    if Key(a) == Key(b) {
      LessIrreflexive(Key(a));
    }
  }

  /** Names that differ only in letter case compare equal. */
  lemma CaseIsIgnored(a: Attachment, b: Attachment)
    requires |a.filename| == |b.filename|
    requires forall i :: 0 <= i < |a.filename| ==> UpperChar(a.filename[i]) == UpperChar(b.filename[i])
    ensures SortImages(a, b) == 0
  {
    assert Key(a) == Key(b);
    LessIrreflexive(Key(a));
  }

  // ---------------------------------------------------------------- sorting

  /** Every file comes before every later one. */
  predicate Sorted(s: seq<Attachment>)
  {
    forall i, j :: 0 <= i < j < |s| ==> Before(s[i], s[j])
  }

  /** A file that comes before every file of a sorted list can head it. */
  lemma ConsSorted(y: Attachment, s: seq<Attachment>)
    requires Sorted(s)
    requires forall k :: 0 <= k < |s| ==> Before(y, s[k])
    ensures Sorted([y] + s)
  {
    forall i, j | 0 <= i < j < |[y] + s| ensures Before(([y] + s)[i], ([y] + s)[j]) {
      if i > 0 {
        assert ([y] + s)[i] == s[i - 1] && ([y] + s)[j] == s[j - 1];
      }
    }
  }

  /** A file before the head of a sorted list is before all of it. */
  lemma BeforeHead(x: Attachment, s: seq<Attachment>)
    requires Sorted(s) && |s| > 0 && Before(x, s[0])
    ensures forall k :: 0 <= k < |s| ==> Before(x, s[k])
  {
    forall k | 0 < k < |s| ensures Before(x, s[k]) {
      BeforeTransitive(x, s[0], s[k]);
    }
  }

  /** The head of a sorted list is before every file of a rearrangement of its tail plus `x`. */
  lemma HeadBeforeRest(s: seq<Attachment>, x: Attachment, rest: seq<Attachment>)
    requires Sorted(s) && |s| > 0 && Before(s[0], x)
    requires multiset(rest) == multiset(s[1..]) + multiset{x}
    ensures forall k :: 0 <= k < |rest| ==> Before(s[0], rest[k])
  {
    forall k | 0 <= k < |rest| ensures Before(s[0], rest[k]) {
      assert rest[k] in multiset(rest);
      if rest[k] != x {
        assert rest[k] in multiset(s[1..]);
        var m :| 0 <= m < |s[1..]| && s[1..][m] == rest[k];
        assert s[1..][m] == s[m + 1];
      }
    }
  }

  /** Inserts `x` into a sorted list after every file whose key is not greater. */
  function Insert(x: Attachment, s: seq<Attachment>): (r: seq<Attachment>)
    requires Sorted(s)
    ensures Sorted(r)
    ensures multiset(r) == multiset(s) + multiset{x}
    decreases |s|
  {
    if |s| == 0 then [x]
    else if SortImages(x, s[0]) < 0 then
      BeforeHead(x, s);
      ConsSorted(x, s);
      [x] + s
    else
      var rest := Insert(x, s[1..]);
      LessTrichotomy(Key(x), Key(s[0]));
      HeadBeforeRest(s, x, rest);
      ConsSorted(s[0], rest);
      assert s == [s[0]] + s[1..];
      [s[0]] + rest
  }

  /**
   `filesValue.sort(sortImages)`: a sorted rearrangement of the files that
   is stable, as `Array.prototype.sort` has been since ECMAScript 2019:
   files whose upper-cased names are equal keep their order in the cell.
   */
  function SortFiles(files: seq<Attachment>): (r: seq<Attachment>)
    ensures Sorted(r)
    ensures multiset(r) == multiset(files) && |r| == |files|
    ensures forall k :: KeyFilter(r, k) == KeyFilter(files, k)
    decreases |files|
  {
    if |files| == 0 then []
    else
      var init := files[..|files| - 1];
      assert files == init + [files[|files| - 1]];
      var sortedInit := SortFiles(init);
      InsertStepStable(files[|files| - 1], init, sortedInit);
      var r := Insert(files[|files| - 1], sortedInit);
      assert |r| == |multiset(r)| == |multiset(files)|;
      r
  }

  // ---------------------------------------------------------------- stability

  /** The files of `s` whose key is `k`, in the order of `s`. */
  function KeyFilter(s: seq<Attachment>, k: string): seq<Attachment>
    decreases |s|
  {
    if |s| == 0 then [] else (if Key(s[0]) == k then [s[0]] else []) + KeyFilter(s[1..], k)
  }

  /** Filtering a list with one more file at its end. */
  lemma {:induction false} KeyFilterAppend(s: seq<Attachment>, x: Attachment, k: string)
    ensures KeyFilter(s + [x], k) == KeyFilter(s, k) + (if Key(x) == k then [x] else [])
    decreases |s|
  {
    if |s| == 0 {
      assert KeyFilter([x], k) == (if Key(x) == k then [x] else []) + KeyFilter([], k);
    } else {
      assert (s + [x])[1..] == s[1..] + [x];
      KeyFilterAppend(s[1..], x, k);
    }
  }

  /** A list without a file of key `k` filters to nothing. */
  lemma {:induction false} KeyFilterNone(s: seq<Attachment>, k: string)
    requires forall j :: 0 <= j < |s| ==> Key(s[j]) != k
    ensures KeyFilter(s, k) == []
    decreases |s|
  {
    if |s| > 0 {
      KeyFilterNone(s[1..], k);
    }
  }

  /** A file whose key is below the head of a sorted list ties with none of its files. */
  lemma NoTieAfterSmaller(x: Attachment, s: seq<Attachment>)
    requires Sorted(s) && |s| > 0 && Less(Key(x), Key(s[0]))
    ensures forall j :: 0 <= j < |s| ==> Key(s[j]) != Key(x)
  {
    forall j | 0 <= j < |s| ensures Key(s[j]) != Key(x) {
      if j > 0 {
        assert Before(s[0], s[j]);
      }
      LessIrreflexive(Key(x));
    }
  }

  /** Inserting puts `x` after every file of equal key already in the list. */
  lemma {:induction false} InsertStable(x: Attachment, s: seq<Attachment>, k: string)
    requires Sorted(s)
    ensures KeyFilter(Insert(x, s), k) == KeyFilter(s, k) + (if Key(x) == k then [x] else [])
    decreases |s|
  {
    if |s| == 0 {
      assert KeyFilter([x], k) == (if Key(x) == k then [x] else []) + KeyFilter([], k);
    } else if SortImages(x, s[0]) < 0 {
      InsertAtHeadStable(x, s, k);
    } else {
      InsertStable(x, s[1..], k);
      InsertPastHeadStable(x, s, k);
    }
  }

  /** Inserting before the head keeps the filter when `x` ties with no file. */
  lemma InsertAtHeadStable(x: Attachment, s: seq<Attachment>, k: string)
    requires Sorted(s) && |s| > 0 && SortImages(x, s[0]) < 0
    ensures KeyFilter(Insert(x, s), k) == KeyFilter(s, k) + (if Key(x) == k then [x] else [])
  {
    assert Insert(x, s) == [x] + s;
    assert ([x] + s)[1..] == s;
    if Key(x) == k {
      NoTieAfterSmaller(x, s);
      KeyFilterNone(s, k);
    }
  }

  /** Inserting past the head filters as the head followed by the insertion into the tail. */
  lemma InsertPastHeadStable(x: Attachment, s: seq<Attachment>, k: string)
    requires Sorted(s) && |s| > 0 && SortImages(x, s[0]) >= 0
    requires KeyFilter(Insert(x, s[1..]), k) == KeyFilter(s[1..], k) + (if Key(x) == k then [x] else [])
    ensures KeyFilter(Insert(x, s), k) == KeyFilter(s, k) + (if Key(x) == k then [x] else [])
  {
    assert Insert(x, s) == [s[0]] + Insert(x, s[1..]);
    KeyFilterConsStep(s[0], Insert(x, s[1..]), s[1..], if Key(x) == k then [x] else [], k);
    assert [s[0]] + s[1..] == s;
  }

  /** Putting the same file in front of two lists keeps what their filters differ by at the end. */
  lemma KeyFilterConsStep(y: Attachment, t: seq<Attachment>, u: seq<Attachment>, tie: seq<Attachment>, k: string)
    requires KeyFilter(t, k) == KeyFilter(u, k) + tie
    ensures KeyFilter([y] + t, k) == KeyFilter([y] + u, k) + tie
  {
    assert ([y] + t)[1..] == t && ([y] + u)[1..] == u;
    var head := if Key(y) == k then [y] else [];
    assert head + (KeyFilter(u, k) + tie) == (head + KeyFilter(u, k)) + tie;
  }

  /** One step of the sort keeps the files of each key in the order of the cell. */
  lemma InsertStepStable(x: Attachment, init: seq<Attachment>, sortedInit: seq<Attachment>)
    requires Sorted(sortedInit)
    requires forall k :: KeyFilter(sortedInit, k) == KeyFilter(init, k)
    ensures forall k :: KeyFilter(Insert(x, sortedInit), k) == KeyFilter(init + [x], k)
  {
    forall k ensures KeyFilter(Insert(x, sortedInit), k) == KeyFilter(init + [x], k) {
      InsertStable(x, sortedInit, k);
      KeyFilterAppend(init, x, k);
    }
  }

  /** The first file a filter keeps is the first file of the list with that key. */
  lemma {:induction false} FirstOfKey(s: seq<Attachment>, k: string) returns (m: nat)
    requires |KeyFilter(s, k)| > 0
    ensures m < |s| && s[m] == KeyFilter(s, k)[0] && Key(s[m]) == k
    ensures forall j :: 0 <= j < m ==> Key(s[j]) != k
    decreases |s|
  {
    if Key(s[0]) == k {
      m := 0;
    } else {
      var m1 := FirstOfKey(s[1..], k);
      m := m1 + 1;
    }
  }

  // ---------------------------------------------------------------- options

  /** The value of an option: the attachment's id and url joined by one space. */
  function Encode(id: string, url: string): (token: string)
    ensures |token| == |id| + 1 + |url| && token[|id|] == ' '
    ensures token[..|id|] == id && token[|id| + 1..] == url
  {
    id + " " + url
  }

  /** `mapImages`. */
  function MapImage(f: Attachment): (o: SelectOption)
    ensures o.caption == f.filename
    ensures o.value == Encode(f.id, f.url)
  {
    SelectOption(Encode(f.id, f.url), f.filename)
  }

  /** `.map(mapImages)`. */
  function MapImages(files: seq<Attachment>): (opts: seq<SelectOption>)
    ensures |opts| == |files|
    ensures forall i :: 0 <= i < |files| ==> opts[i] == MapImage(files[i])
    decreases |files|
  {
    if |files| == 0 then [] else [MapImage(files[0])] + MapImages(files[1..])
  }

  /** `record.getCellValue('Files') || []`: an empty cell reads as no files. */
  function Files(cell: Option<seq<Attachment>>): (r: seq<Attachment>)
    ensures cell.None? ==> r == []
    ensures cell.Some? ==> r == cell.value
  {
    cell.GetOr([])
  }

  /** The picker's options: the files, null read as none, sorted and mapped. */
  function ImageOptions(cell: Option<seq<Attachment>>): (opts: seq<SelectOption>)
    ensures |opts| == |Files(cell)|
    ensures forall i, j :: 0 <= i < j < |opts| ==> !Less(Upper(opts[j].caption), Upper(opts[i].caption))
  {
    var sorted := SortFiles(Files(cell));
    assert |sorted| == |multiset(sorted)| == |Files(cell)|;
    MapImages(sorted)
  }

  lemma {:induction false} MapImagesConcat(a: seq<Attachment>, b: seq<Attachment>)
    ensures MapImages(a + b) == MapImages(a) + MapImages(b)
    decreases |a|
  {
    if |a| == 0 {
      assert a + b == b;
    } else {
      assert (a + b)[1..] == a[1..] + b;
      MapImagesConcat(a[1..], b);
    }
  }

  /** Taking one element out of the middle of a list takes it out of its multiset. */
  lemma MultisetWithout<T>(p: seq<T>, y: T, q: seq<T>)
    ensures multiset(p + [y] + q) == multiset(p + q) + multiset{y}
  {
    assert multiset(p + [y] + q) == multiset(p) + multiset{y} + multiset(q);
    assert multiset(p + q) == multiset(p) + multiset(q);
  }

  /** Equal multisets stay equal once the same element is taken out of both. */
  lemma MultisetCancel<T>(m1: multiset<T>, m2: multiset<T>, y: T)
    requires m1 + multiset{y} == m2 + multiset{y}
    ensures m1 == m2
  {
    assert m1 == (m1 + multiset{y}) - multiset{y};
    assert m2 == (m2 + multiset{y}) - multiset{y};
  }

  /** Mapping a list with one element picked out, and counting that element back in. */
  lemma MapImagesMiddle(p: seq<Attachment>, x: Attachment, q: seq<Attachment>)
    ensures multiset(MapImages(p + [x] + q)) == multiset(MapImages(p + q)) + multiset{MapImage(x)}
  {
    MapImagesConcat(p + [x], q);
    MapImagesConcat(p, [x]);
    MapImagesConcat(p, q);
    assert MapImages([x]) == [MapImage(x)];
    MultisetWithout(MapImages(p), MapImage(x), MapImages(q));
  }

  /** Mapping a rearrangement gives a rearrangement of the mapped list. */
  lemma {:induction false} MapImagesMultiset(a: seq<Attachment>, b: seq<Attachment>)
    requires multiset(a) == multiset(b)
    ensures multiset(MapImages(a)) == multiset(MapImages(b))
    decreases |a|
  {
    if |a| > 0 {
      var x := a[0];
      assert x in multiset(b);
      var k :| 0 <= k < |b| && b[k] == x;
      var b1, b2 := b[..k], b[k + 1..];
      assert a == [] + [x] + a[1..];
      assert b == b1 + [x] + b2;
      assert multiset(a[1..]) == multiset(b1 + b2) by {
        MultisetWithout([], x, a[1..]);
        MultisetWithout(b1, x, b2);
        MultisetCancel(multiset(a[1..]), multiset(b1 + b2), x);
      }
      MapImagesMultiset(a[1..], b1 + b2);
      var o := MapImage(x);
      assert multiset(MapImages(a)) == multiset(MapImages(a[1..])) + multiset{o} by {
        MapImagesMiddle([], x, a[1..]);
        assert [] + a[1..] == a[1..];
      }
      assert multiset(MapImages(b)) == multiset(MapImages(b1 + b2)) + multiset{o} by {
        MapImagesMiddle(b1, x, b2);
      }
    }
  }

  /** The options are exactly the mapped files, each once, whatever their order in the cell. */
  lemma OptionsArePermutation(cell: Option<seq<Attachment>>)
    ensures multiset(ImageOptions(cell)) == multiset(MapImages(Files(cell)))
    ensures cell.None? ==> ImageOptions(cell) == []
  {
    MapImagesMultiset(SortFiles(Files(cell)), Files(cell));
  }

  /** `images.length > 0 ? images[0].value : null`. */
  function InitialSelection(opts: seq<SelectOption>): (r: JsString)
    ensures r.Null? <==> |opts| == 0
    ensures r.Str? ==> r.value == opts[0].value
    ensures !r.Undefined?
  {
    if |opts| > 0 then Str(opts[0].value) else Null
  }

  /**
   The preselected option is the file with the smallest upper-cased name,
   and among files whose names tie, the one that comes first in the cell.
   */
  lemma InitialSelectionIsFirstFile(cell: Option<seq<Attachment>>)
    requires |Files(cell)| > 0
    ensures exists m :: (0 <= m < |Files(cell)|
      && InitialSelection(ImageOptions(cell)) == Str(Encode(Files(cell)[m].id, Files(cell)[m].url))
      && (forall g :: g in Files(cell) ==> Before(Files(cell)[m], g))
      && (forall j :: 0 <= j < m ==> Less(Key(Files(cell)[m]), Key(Files(cell)[j]))))
  {
    var files := Files(cell);
    var sorted := SortFiles(files);
    assert |sorted| == |multiset(sorted)| == |files|;
    var f := sorted[0];
    assert ImageOptions(cell)[0] == MapImage(f);
    forall g | g in files ensures Before(f, g) {
      assert g in multiset(sorted);
      var k :| 0 <= k < |sorted| && sorted[k] == g;
      if k == 0 {
        LessIrreflexive(Key(f));
      }
    }
    assert KeyFilter(sorted, Key(f))[0] == f;
    var m := FirstOfKey(files, Key(f));
    forall j | 0 <= j < m ensures Less(Key(files[m]), Key(files[j])) {
      assert files[j] in files;
      LessTrichotomy(Key(f), Key(files[j]));
    }
  }

  // ---------------------------------------------------------------- dialog

  /** The open dialog: its options and the value the select box holds. */
  datatype Picker = Picker(options: seq<SelectOption>, selected: JsString)

  /** What the dialog hands back. */
  datatype Outcome = Confirmed(selection: JsString) | Canceled

  /** The dialog as it opens on a record's `Files` cell. */
  function Open(cell: Option<seq<Attachment>>): (p: Picker)
    ensures p.options == ImageOptions(cell)
    ensures p.selected == InitialSelection(p.options)
  {
    Picker(ImageOptions(cell), InitialSelection(ImageOptions(cell)))
  }

  /** The select box's `onChange`: whatever it reports becomes the selection. */
  function Choose(p: Picker, v: JsString): (r: Picker)
    ensures r.options == p.options && r.selected == v
  {
    p.(selected := v)
  }

  /** `onConfirm` passes the selection on as it is. */
  function Confirm(p: Picker): (o: Outcome)
    ensures o.Confirmed? && o.selection == p.selected
  {
    Confirmed(p.selected)
  }

  /** `onCancel` passes nothing. */
  function Cancel(p: Picker): (o: Outcome)
    ensures o.Canceled?
  {
    Canceled
  }

  // ---------------------------------------------------------------- token

  /** `selectedImage.split(' ')` read at `[0]` and `[1]` (`undefined` when there is no second piece). */
  datatype Decoded = Decoded(id: string, url: JsString)

  /**
   How the editor reads an option value back: the id is everything before
   the first space; the url is what follows up to the next space, and is
   `undefined` when the token has no space at all.
   */
  function Decode(token: string): (d: Decoded)
    ensures ' ' !in d.id
    ensures d.url.Null? == false
    ensures d.url.Str? ==> ' ' !in d.url.value
    ensures d.url.Str? <==> ' ' in token
    ensures ' ' !in token ==> d == Decoded(token, Undefined)
    ensures d.url.Str? ==> d.id + " " + d.url.value <= token
  {
    SplitHead(token, ' ');
    var parts := Split(token, ' ');
    Decoded(parts[0], if |parts| > 1 then Str(parts[1]) else Undefined)
  }

  /**
   Reading a token back gives the attachment's id and url exactly when
   neither of them contains a space.
   */
  lemma TokenRoundTrip(id: string, url: string)
    ensures Decode(Encode(id, url)) == Decoded(id, Str(url)) <==> ' ' !in id && ' ' !in url
  {
    SplitAround(id, ' ', url);
    assert Encode(id, url) == id + [' '] + url;
    if ' ' !in id {
      SplitWithoutSeparator(id, ' ');
      if ' ' !in url {
        SplitWithoutSeparator(url, ' ');
      }
    }
  }

  /** A url with a space is cut short: the editor receives only its first piece. */
  lemma UrlWithSpaceIsTruncated(id: string, a: string, b: string)
    requires ' ' !in id && ' ' !in a
    ensures Decode(Encode(id, a + " " + b)) == Decoded(id, Str(a))
  {
    assert Encode(id, a + " " + b) == id + [' '] + (a + [' '] + b);
    SplitAround(id, ' ', a + [' '] + b);
    SplitAround(a, ' ', b);
    SplitWithoutSeparator(id, ' ');
    SplitWithoutSeparator(a, ' ');
  }
}
