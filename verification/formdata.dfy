/** atom/formdata.py: the `Content-Disposition` splitter, the form's list of files, and
    how `FormData.from_request` cuts a multipart body (section 5.1.1 of RFC 2046) into
    parts. `find_headers`, which splits one part into its header pairs and its body, is a
    parameter; `None` stands for the ValueError it may raise. */
module FormData {
  import opened Wrappers
  import Strings
  import Dicts
  import Base64

  /** `_get(items, index)`: Python indexing, where a negative index counts from the end,
      with `None` instead of an IndexError. */
  function GetItem<T>(items: seq<T>, index: int): (r: Option<T>)
    ensures r.Some? <==> -|items| <= index < |items|
    ensures 0 <= index < |items| ==> r == Some(items[index])
    ensures -|items| <= index < 0 ==> r == Some(items[|items| + index])
  {
    if 0 <= index < |items| then Some(items[index])
    else if -|items| <= index < 0 then Some(items[|items| + index])
    else None
  }

  /** Every position of a list can be reached with a non-negative and with a negative
      index, and the two agree. */
  lemma GetItemBothEnds<T>(items: seq<T>, i: nat)
    requires i < |items|
    ensures GetItem(items, i) == GetItem(items, i - |items|) == Some(items[i])
  {
  }

  // ---------------------------------------------------------------------------
  // Disposition
  // ---------------------------------------------------------------------------

  const ParamSep := "; "

  /** `Disposition(header)`: the header and its pieces between "; " separators. */
  datatype Disposition = Disposition(header: string) {

    function Parts(): (ps: seq<string>)
      ensures |ps| >= 1
    {
      Strings.Split(header, ParamSep)
    }

    /** `content_type`: the first piece, the whole header when there is no separator. */
    function ContentType(): string {
      Parts()[0]
    }

    /** `name`: the second piece, raw (`name="..."` keeps its key and quotes). */
    function Name(): Option<string> {
      GetItem(Parts(), 1)
    }

    /** `filename`: the third piece, raw as well. */
    function Filename(): Option<string> {
      GetItem(Parts(), 2)
    }
  }

  /** The content type is the text before the first "; ", or all of it. */
  lemma ContentTypeIsPrefix(d: Disposition)
    ensures Strings.StartsWith(d.header, d.ContentType())
    ensures !Strings.Contains(d.ContentType(), ParamSep)
    ensures !Strings.Contains(d.header, ParamSep) ==> d.ContentType() == d.header && d.Name().None?
  {
    var ps := d.Parts();
    Strings.JoinSplit(d.header, ParamSep);
    Strings.SplitPiecesFree(d.header, ParamSep);
    if |ps| > 1 {
      assert Strings.Join(ps, ParamSep) == ps[0] + ParamSep + Strings.Join(ps[1..], ParamSep);
      assert d.header[..|ps[0]|] == ps[0];
    }
    if !Strings.Contains(d.header, ParamSep) {
      assert Strings.Find(d.header, ParamSep).None?;
    }
  }

  /** A header written from its pieces splits back into them: content type, name and
      file name come back as given, provided none of them contains ';'. */
  lemma DispositionRoundTrip(contentType: string, name: string, filename: string)
    requires ';' !in contentType && ';' !in name && ';' !in filename
    ensures var d := Disposition(contentType + "; " + name + "; " + filename);
      d.ContentType() == contentType && d.Name() == Some(name) && d.Filename() == Some(filename)
  {
    var parts := [contentType, name, filename];
    assert Strings.Join(parts, ParamSep) == contentType + "; " + name + "; " + filename by {
      assert Strings.Join(parts[1..], ParamSep) == name + "; " + filename by {
        assert parts[1..][1..] == [filename];
      }
    }
    Strings.SplitJoin(parts, ParamSep);
  }

  // ---------------------------------------------------------------------------
  // FormData
  // ---------------------------------------------------------------------------

  /** `File(io.BytesIO(body), filename=...)` */
  datatype File = File(body: seq<Base64.byte>, filename: Option<string>)

  /** The form's files with their dispositions, in insertion order (what iterating yields). */
  datatype FormData = FormData(files: seq<(File, Option<Disposition>)>)

  const EmptyForm := FormData([])

  /** `add_file(file, disposition)` */
  function AddFile(form: FormData, file: File, disposition: Option<Disposition>): (r: FormData)
    ensures |r.files| == |form.files| + 1
    ensures r.files[..|form.files|] == form.files && r.files[|form.files|] == (file, disposition)
  {
    FormData(form.files + [(file, disposition)])
  }

  /** `add_file` for each entry in turn. */
  function AddAll(form: FormData, entries: seq<(File, Option<Disposition>)>): FormData
    decreases |entries|
  {
    if |entries| == 0 then form
    else AddFile(AddAll(form, entries[..|entries| - 1]), entries[|entries| - 1].0, entries[|entries| - 1].1)
  }

  /** Iteration yields exactly what was added, in the order it was added. */
  lemma {:induction false} IterationOrder(form: FormData, entries: seq<(File, Option<Disposition>)>)
    ensures AddAll(form, entries).files == form.files + entries
    decreases |entries|
  {
    if |entries| > 0 {
      IterationOrder(form, entries[..|entries| - 1]);
      assert entries == entries[..|entries| - 1] + [entries[|entries| - 1]];
    }
  }

  // ---------------------------------------------------------------------------
  // from_request
  // ---------------------------------------------------------------------------

  /** What `find_headers` makes of a part: its header pairs and its body, or None for a
      ValueError. */
  type FindHeaders = string -> Option<(seq<(string, string)>, seq<Base64.byte>)>

  datatype FormError = ContentTypeShape(pieces: nat)   // ValueError from the 2-way unpacking

  /** `dict(pairs)`: a later pair for the same name wins. */
  function DictOf(pairs: seq<(string, string)>): Dicts.Dict<string, string>
    decreases |pairs|
  {
    if |pairs| == 0 then Dicts.Empty()
    else Dicts.Set(DictOf(pairs[..|pairs| - 1]), pairs[|pairs| - 1].0, pairs[|pairs| - 1].1)
  }

  const BoundaryChars := Strings.CharSet("boundary=")

  /** The delimiter line prefix: "--" and the parameter with every leading and trailing
      character from {b, o, u, n, d, a, r, y, =} removed. This is a character-set strip,
      not the removal of a "boundary=" prefix. */
  function Delimiter(param: string): (r: string)
    ensures |r| >= 2 && r[..2] == "--"
    ensures r[2..] == Strings.Strip(param, BoundaryChars)
  {
    "--" + Strings.Strip(param, BoundaryChars)
  }

  /** For a boundary that starts and ends with characters outside the set, such as the
      usual `----WebKitFormBoundary...`, the strip removes exactly the `boundary=` in front. */
  lemma DelimiterOfPlainBoundary(b: string)
    requires |b| > 0 && b[0] !in "boundary=" && b[|b| - 1] !in "boundary="
    ensures Delimiter("boundary=" + b) == "--" + b
  {
    var s := "boundary=" + b;
    var r := Strings.Strip(s, BoundaryChars);
    var i := Strings.Leading(s, BoundaryChars);
    assert forall k :: 0 <= k < 9 ==> s[k] in BoundaryChars;
    assert s[9] == b[0] && s[|s| - 1] == b[|b| - 1];
    assert i == 9 && |r| > 0;
    assert i + |r| == |s|;
    assert r == s[9..] == b;
  }

  /** The character-set strip also eats the boundary itself when it is made of the letters
      of "boundary": for `boundary=abba` the delimiter is a bare `--`. */
  lemma DelimiterEatsBoundaryLetters(b: string)
    requires forall k :: 0 <= k < |b| ==> b[k] in "boundary="
    ensures Delimiter("boundary=" + b) == "--"
  {
    var s := "boundary=" + b;
    var r := Strings.Strip(s, BoundaryChars);
    assert forall k :: 0 <= k < |s| ==> s[k] in BoundaryChars by {
      forall k | 0 <= k < |s|
        ensures s[k] in BoundaryChars
      {
        if k >= 9 {
          assert s[k] == b[k - 9];
        }
      }
    }
    assert |r| == 0;
  }

  /** The files one part contributes: none for an empty part or one `find_headers`
      rejects, otherwise one, named after the disposition's file name when there is a
      non-empty `Content-Disposition`. */
  function PartEntries(part: string, findHeaders: FindHeaders): (r: seq<(File, Option<Disposition>)>)
    ensures |r| <= 1
    ensures |r| == 1 <==> part != "" && findHeaders(part).Some?
    ensures |r| == 1 ==> r[0].0.body == findHeaders(part).value.1
  {
    if part == "" then []
    else match findHeaders(part)
      case None => []
      case Some((pairs, body)) =>
        var content := Dicts.Get(DictOf(pairs), "Content-Disposition");
        if content.Some? && content.value != "" then
          var disposition := Disposition(content.value);
          [(File(body, disposition.Filename()), Some(disposition))]
        else [(File(body, None), None)]
  }

  /** The files of a list of parts: each part's contribution, in order. */
  function Collect(parts: seq<string>, findHeaders: FindHeaders): seq<(File, Option<Disposition>)>
    decreases |parts|
  {
    if |parts| == 0 then []
    else Collect(parts[..|parts| - 1], findHeaders) + PartEntries(parts[|parts| - 1], findHeaders)
  }

  /** The parts that are not empty. */
  function NonEmpty(parts: seq<string>): nat
    decreases |parts|
  {
    if |parts| == 0 then 0
    else NonEmpty(parts[..|parts| - 1]) + (if parts[|parts| - 1] != "" then 1 else 0)
  }

  /** Collecting over two runs of parts is collecting over each, one after the other: the
      files keep the order of their parts. */
  lemma {:induction false} CollectAppend(a: seq<string>, b: seq<string>, findHeaders: FindHeaders)
    ensures Collect(a + b, findHeaders) == Collect(a, findHeaders) + Collect(b, findHeaders)
    decreases |b|
  {
    if |b| > 0 {
      var b' := b[..|b| - 1];
      assert (a + b)[..|a + b| - 1] == a + b';
      CollectAppend(a, b', findHeaders);
    } else {
      assert a + b == a;
    }
  }

  /** There are never more files than non-empty parts. */
  lemma {:induction false} CollectBound(parts: seq<string>, findHeaders: FindHeaders)
    ensures |Collect(parts, findHeaders)| <= NonEmpty(parts)
    decreases |parts|
  {
    if |parts| > 0 {
      CollectBound(parts[..|parts| - 1], findHeaders);
    }
  }

  /** The parts of the body: stripped of the characters of the closing delimiter line,
      then split at every delimiter line. */
  function BodyParts(text: string, delimiter: string): (parts: seq<string>)
    ensures |parts| >= 1
  {
    var closing := delimiter + "--\r\n";
    var data := Strings.Strip(text, Strings.CharSet(closing));
    Strings.Split(data, delimiter + "\r\n")
  }

  /** One turn of the loop over the parts in `from_request`: an empty part or one whose
      headers cannot be found is skipped; otherwise its body becomes a file, named by the
      `Content-Disposition` header when there is a non-empty one. */
  method AddPart(form: FormData, part: string, findHeaders: FindHeaders) returns (form': FormData)
    ensures form'.files == form.files + PartEntries(part, findHeaders)
  {
    form' := form;
    if part != "" {
      match findHeaders(part)
      case None =>
      case Some((pairs, body)) =>
        var content := Dicts.Get(DictOf(pairs), "Content-Disposition");
        var disposition: Option<Disposition>;
        var filename: Option<string>;
        if content.Some? && content.value != "" {
          disposition := Some(Disposition(content.value));
          filename := disposition.value.Filename();
        } else {
          disposition := None;
          filename := None;
        }
        form' := AddFile(form, File(body, filename), disposition);
    }
  }

  /** The loop over the parts in `from_request`, adding to `form` what each part yields. */
  method CollectParts(parts: seq<string>, findHeaders: FindHeaders) returns (form': FormData)
    ensures form' == FormData(Collect(parts, findHeaders))
  {
    form' := EmptyForm;
    var i := 0;
    while i < |parts|
      invariant 0 <= i <= |parts|
      invariant form' == FormData(Collect(parts[..i], findHeaders))
    {
      assert parts[..i + 1][..i] == parts[..i];
      form' := AddPart(form', parts[i], findHeaders);
      i := i + 1;
    }
    assert parts[..|parts|] == parts;
  }

  /** `FormData.from_request(request)`, where `text` is what `request.text()` returns and
      `contentType` the request's `Content-Type` header. */
  method FromRequest(text: string, contentType: Option<string>, findHeaders: FindHeaders) returns (r: Result<FormData, FormError>)
    ensures contentType.None? || contentType.value == "" ==> r == Ok(EmptyForm)
    ensures contentType.Some? && contentType.value != "" ==>
      var pieces := Strings.Split(contentType.value, ParamSep);
      && (|pieces| != 2 ==> r == Err(ContentTypeShape(|pieces|)))
      && (|pieces| == 2 ==> r == Ok(FormData(Collect(BodyParts(text, Delimiter(pieces[1])), findHeaders))))
  {
    if contentType.None? || contentType.value == "" {
      return Ok(EmptyForm);
    }
    var pieces := Strings.Split(contentType.value, ParamSep);
    if |pieces| != 2 {
      return Err(ContentTypeShape(|pieces|));
    }
    var parts := BodyParts(text, Delimiter(pieces[1]));
    var form := CollectParts(parts, findHeaders);
    return Ok(form);
  }
}
