/** The cells of the `log` table and the lines of the detail view
    (cmd/log.go). Colours are the SGR attribute codes of the colour library;
    date formatting is left abstract, so a date cell records which instant it
    shows and whether it is underlined. */
module Render {
  import opened Text
  import opened Model
  import opened Ansi

  const Green: string := "32"
  const Yellow: string := "33"
  const Blue: string := "34"
  const Magenta: string := "35"
  const Cyan: string := "36"
  const HiRed: string := "91"
  const HiBlack: string := "90"
  const Red: string := "31"
  const Underline: string := "4"

  const Done: string := "\U{25A3}"
  const NotDone: string := "\U{2610}"
  const DocGlyph: string := "\U{273B}"
  const RedactGlyph: char := '\U{283F}'

  /** The label `fmtDo` prints for each known type, "unknown" otherwise. */
  function TypeLabel(t: DoType): string {
    if t == Task then "task"
    else if t == Ask then "ask"
    else if t == Tell then "tell"
    else if t == Brag then "brag"
    else if t == Learn then "learn"
    else if t == PR then "PR"
    else if t == Meta then "meta"
    else "unknown"
  }

  /** Known types get distinct labels, and only unknown ones read "unknown". */
  lemma TypeLabelsDistinct(t: DoType, u: DoType)
    ensures TypeLabel(t) == "unknown" <==> t !in DoTypes
    ensures t in DoTypes && u in DoTypes && t != u ==> TypeLabel(t) != TypeLabel(u)
  {
    DoTypeLabelsDistinct();
  }

  /** The colour each known type is painted in. */
  function TypeColour(t: DoType): (c: Option<string>)
    ensures c.Some? <==> t in DoTypes
    ensures c.Some? ==> forall k :: 0 <= k < |c.value| ==> IsParam(c.value[k])
  {
    if t == Task then Some(Green)
    else if t == Ask then Some(Yellow)
    else if t == Tell then Some(Blue)
    else if t == Brag then Some(Magenta)
    else if t == Learn then Some(Cyan)
    else if t == PR then Some(HiRed)
    else if t == Meta then Some(Cyan)
    else None
  }

  /** `fmtDo`: the painted type label; an unknown type is the bare word
      "unknown". */
  function FmtDo(d: Do): (r: string)
    ensures StripAnsi(r) == TypeLabel(d.doType)
    ensures d.doType !in DoTypes ==> r == "unknown"
  {
    match TypeColour(d.doType)
    case None =>
      StripPlain("unknown");
      "unknown"
    case Some(c) =>
      PaintStrips(c, TypeLabel(d.doType));
      Paint(c, TypeLabel(d.doType))
  }

  /** `fmtBox`: the filled box marks a completed do. */
  function FmtBox(d: Do): (r: string)
    ensures r == Done <==> d.completed
    ensures r == NotDone <==> !d.completed
  {
    if d.completed then Done else NotDone
  }

  /** `fmtPrio`: the priority text, red when high and grey otherwise. */
  function FmtPrio(d: Do): (r: string)
    ensures StripAnsi(r) == StripAnsi(d.priority)
    ensures Esc !in d.priority ==> StripAnsi(r) == d.priority
    ensures r == Paint(Red, d.priority) <==> d.priority == High
  {
    StripPlainWhen(d.priority);
    PaintCodesDiffer(Red, HiBlack, d.priority);
    if d.priority == High then Paint(Red, d.priority) else Paint(HiBlack, d.priority)
  }

  /** Two different colour codes of one length paint differently. */
  lemma PaintCodesDiffer(a: string, b: string, text: string)
    requires forall k :: 0 <= k < |a| ==> IsParam(a[k])
    requires forall k :: 0 <= k < |b| ==> IsParam(b[k])
    requires |a| == |b| && a != b
    ensures Paint(a, text) != Paint(b, text)
  {
    var i :| 0 <= i < |a| && a[i] != b[i];
    assert Paint(a, text)[2 + i] == a[i];
    assert Paint(b, text)[2 + i] == b[i];
  }

  /** `fmtBool`: a coloured "true" or "false". */
  function FmtBool(b: bool): (r: string)
    ensures StripAnsi(r) == if b then "true" else "false"
  {
    PaintStrips(Green, "true");
    PaintStrips(Red, "false");
    if b then Paint(Green, "true") else Paint(Red, "false")
  }

  /** A date cell: the instant shown, and whether it is underlined (the
      completion style) rather than grey. */
  datatype DateCell = DateCell(underlined: bool, at: Time)

  /** `fmtDate`: the completion time once completed, the creation time
      before. It dereferences the completion time, so a completed do must
      carry one. */
  function FmtDate(d: Do): (r: DateCell)
    requires d.completed ==> d.completedAt.Some?
    ensures r.underlined <==> d.completed
    ensures d.completed ==> Some(r.at) == d.completedAt
    ensures !d.completed ==> r.at == d.createdAt
  {
    if d.completed then DateCell(true, d.completedAt.value) else DateCell(false, d.createdAt)
  }

  // ---------------------------------------------------------------- log table

  /** A do with what `Preload("Doc")` and `Preload("Tags")` attach. */
  datatype Loaded = Loaded(task: Do, doc: DoDoc, tags: seq<Tag>)

  function Load(s: Store, d: Do): (r: Loaded)
    requires Valid(s)
    ensures r.task == d
    ensures r.doc.id != 0 <==> exists k :: k in s.docs.rows && s.docs.rows[k].doId == d.id
    ensures r.tags == TagsOf(s, d.id)
  {
    Loaded(d, DocOf(s, d.id), TagsOf(s, d.id))
  }

  /** One table row: box, id, description, date, doc mark, type, priority and
      the first assignee. */
  datatype Row = Row(
    box: string,
    id: string,
    description: string,
    date: DateCell,
    doc: string,
    doType: string,
    prio: string,
    tag: string)

  const Headers: seq<string> := ["", "#", "Do", "At", "Doc", "Type", "Prio", "For"]

  /** The redacted description: one placeholder glyph per byte of the text. */
  function Redact(description: string): (r: string)
    ensures |r| == ByteLen(description)
    ensures forall k :: 0 <= k < |r| ==> r[k] == RedactGlyph
  {
    Repeat(RedactGlyph, ByteLen(description))
  }

  /** The description as listed: hidden for a sensitive do unless `--unhide`. */
  function ShownDescription(d: Do, unhide: bool): (r: string)
    ensures d.sensitive && !unhide ==> r == Redact(d.description)
    ensures !(d.sensitive && !unhide) ==> r == d.description
  {
    if d.sensitive && !unhide then Redact(d.description) else d.description
  }

  function FmtRow(t: Loaded, unhide: bool): (r: Row)
    requires t.task.completed ==> t.task.completedAt.Some?
    ensures r.doc == DocGlyph <==> t.doc.id != 0
    ensures r.doc == "" <==> t.doc.id == 0
    ensures |t.tags| > 0 ==> r.tag == t.tags[0].name
    ensures |t.tags| == 0 ==> r.tag == ""
    ensures r.description == ShownDescription(t.task, unhide)
    ensures DecimalValue(r.id) == t.task.id
    ensures StripAnsi(r.doType) == TypeLabel(t.task.doType)
    ensures r.box == FmtBox(t.task) && r.date == FmtDate(t.task) && r.prio == FmtPrio(t.task)
  {
    DecimalRoundTrip(t.task.id);
    Row(
      FmtBox(t.task),
      Decimal(t.task.id),
      ShownDescription(t.task, unhide),
      FmtDate(t.task),
      if t.doc.id != 0 then DocGlyph else "",
      FmtDo(t.task),
      FmtPrio(t.task),
      if |t.tags| > 0 then t.tags[0].name else "")
  }

  datatype LogOutput = NoTasksFound | Listing(headers: seq<string>, rows: seq<Row>)

  /** `DoLog`: a notice for an empty result, otherwise one row per do in the
      order the query returned them. */
  function DoLog(tasks: seq<Loaded>, unhide: bool): (r: LogOutput)
    requires forall i :: 0 <= i < |tasks| ==> tasks[i].task.completed ==> tasks[i].task.completedAt.Some?
    ensures r.NoTasksFound? <==> |tasks| == 0
    ensures r.Listing? ==> r.headers == Headers && |r.rows| == |tasks|
    ensures r.Listing? ==> forall i :: 0 <= i < |tasks| ==> r.rows[i] == FmtRow(tasks[i], unhide)
  {
    if |tasks| == 0 then NoTasksFound
    else Listing(Headers, seq(|tasks|, i requires 0 <= i < |tasks| => FmtRow(tasks[i], unhide)))
  }

  /** The rows of a query answer loaded from a store. */
  function LoadAll(s: Store, ds: seq<Do>): (r: seq<Loaded>)
    requires Valid(s)
    ensures |r| == |ds|
    ensures forall i :: 0 <= i < |ds| ==> r[i] == Load(s, ds[i])
  {
    seq(|ds|, i requires 0 <= i < |ds| => Load(s, ds[i]))
  }

  /** With the completion rule in force every stored do can be listed. */
  lemma StoredRowsListable(s: Store, ds: seq<Do>)
    requires Valid(s) && CompletionConsistent(s)
    requires forall i :: 0 <= i < |ds| ==> ds[i] in s.dos.rows.Values
    ensures forall i :: 0 <= i < |ds| ==> LoadAll(s, ds)[i].task.completed ==> LoadAll(s, ds)[i].task.completedAt.Some?
  {
    forall i | 0 <= i < |ds| && ds[i].completed ensures ds[i].completedAt.Some? {
      var k :| k in s.dos.rows && s.dos.rows[k] == ds[i];
    }
  }

  /** Redaction keeps the character count only for ASCII text; any other
      character widens it, since Go's `len` counts UTF-8 bytes. */
  lemma RedactLength(description: string)
    ensures |Redact(description)| >= |description|
    ensures |Redact(description)| == |description| <==> IsAscii(description)
  {
    ByteLenBounds(description);
  }

  /** The placeholder glyph is one cell wide, so the redacted width is the
      byte count, which is the original width for printable ASCII. */
  lemma RedactWidth(w: char -> nat, description: string)
    requires NarrowAscii(w) && w(RedactGlyph) == 1
    ensures WidthFunc(w, Redact(description)) == ByteLen(description)
    ensures (forall k :: 0 <= k < |description| ==> ' ' <= description[k] <= '~')
            ==> WidthFunc(w, Redact(description)) == WidthFunc(w, description)
  {
    var r := Redact(description);
    assert Esc !in r;
    WidthRepeat(w, ByteLen(description));
    if forall k :: 0 <= k < |description| ==> ' ' <= description[k] <= '~' {
      assert Esc !in description;
      WidthAscii(w, description);
      assert IsAscii(description);
      ByteLenBounds(description);
    }
  }

  lemma {:induction false} WidthRepeat(w: char -> nat, n: nat)
    requires w(RedactGlyph) == 1
    ensures Width(w, Repeat(RedactGlyph, n)) == n
  {
    if n > 0 {
      assert Repeat(RedactGlyph, n)[1..] == Repeat(RedactGlyph, n - 1);
      WidthRepeat(w, n - 1);
    }
  }

  // ---------------------------------------------------------------- details

  /** The `for:` line of the detail view: every tag name run together. */
  function TagString(tags: seq<Tag>): string
  {
    if |tags| == 0 then "" else TagString(tags[..|tags| - 1]) + tags[|tags| - 1].name
  }

  lemma {:induction false} TagStringAppend(a: seq<Tag>, b: seq<Tag>)
    ensures TagString(a + b) == TagString(a) + TagString(b)
    decreases |b|
  {
    if |b| == 0 {
      assert a + b == a;
    } else {
      var ab := a + b;
      var front := b[..|b| - 1];
      assert ab[..|ab| - 1] == a + front;
      assert ab[|ab| - 1] == b[|b| - 1];
      assert TagString(ab) == TagString(a + front) + b[|b| - 1].name;
      assert TagString(b) == TagString(front) + b[|b| - 1].name;
      TagStringAppend(a, front);
    }
  }

  /** The fields the detail view prints, each in its displayed form. */
  datatype Details = Details(
    id: nat,
    description: string,
    tags: string,
    doType: string,
    prio: string,
    pinned: string,
    sensitive: string,
    deleted: string,
    doc: string,
    createdAt: Time,
    completedAt: Option<Time>)

  /** `DoDetails`: every field of a loaded do, booleans through `fmtBool`. */
  function DoDetails(t: Loaded): (r: Details)
    ensures r.id == t.task.id && r.description == t.task.description
    ensures r.tags == TagString(t.tags)
    ensures StripAnsi(r.doType) == TypeLabel(t.task.doType)
    ensures StripAnsi(r.prio) == StripAnsi(t.task.priority)
    ensures r.prio == Paint(Red, t.task.priority) <==> t.task.priority == High
    ensures StripAnsi(r.pinned) == (if t.task.pinned then "true" else "false")
    ensures StripAnsi(r.sensitive) == (if t.task.sensitive then "true" else "false")
    ensures StripAnsi(r.deleted) == (if t.task.deleted then "true" else "false")
    ensures StripAnsi(r.doc) == (if t.doc.id != 0 then "true" else "false")
    ensures r.createdAt == t.task.createdAt && r.completedAt == t.task.completedAt
  {
    Details(
      t.task.id, t.task.description, TagString(t.tags), FmtDo(t.task), FmtPrio(t.task),
      FmtBool(t.task.pinned), FmtBool(t.task.sensitive), FmtBool(t.task.deleted),
      FmtBool(t.doc.id != 0), t.task.createdAt, t.task.completedAt)
  }

  /** The tag line is built one name at a time: one more tag at the end of
      the list adds its name at the end of the line. */
  lemma TagStringGrows(tags: seq<Tag>, t: Tag)
    ensures TagString(tags + [t]) == TagString(tags) + t.name
  {
    TagStringAppend(tags, [t]);
    assert TagString([t]) == TagString([]) + t.name;
  }

  /** Reassigning a do to a tag whose key is at least that of every tag it
      already has adds the tag's name at the end of its `for:` line. */
  lemma ReassignedTagLine(s: Store, doId: nat, t: Tag)
    requires Valid(s) && t.id in s.tags.rows && s.tags.rows[t.id] == t
    requires forall i :: 0 <= i < |TagsOf(s, doId)| ==> TagsOf(s, doId)[i].id <= t.id
    ensures TagString(TagsOf(AddLink(s, doId, t.id), doId)) == TagString(TagsOf(s, doId)) + t.name
  {
    AddLinkTagsLast(s, doId, t);
    TagStringGrows(TagsOf(s, doId), t);
  }

  /** The `For` cell of a do with a stored tag names a tag whose key is no
      larger: the preload lists tags by key. */
  lemma RowTagLowestKey(s: Store, d: Do, unhide: bool, t: Tag)
    requires d.completed ==> d.completedAt.Some?
    requires Valid(s) && t.id in s.tags.rows && s.tags.rows[t.id] == t
    requires DoTag(d.id, t.id) in s.links
    ensures exists u :: u in s.tags.rows.Values && u.id <= t.id && DoTag(d.id, u.id) in s.links
                        && FmtRow(Load(s, d), unhide).tag == u.name
  {
    FirstTagLowestKey(s, d.id, t);
    var u := TagsOf(s, d.id)[0];
    assert u in multiset(TagsOf(s, d.id));
    assert u.id in s.tags.rows && s.tags.rows[u.id] == u;
  }
}
