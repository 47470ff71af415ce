/** The `template` sub-commands (cmd/template.go): create, list, edit and
    delete of named message templates, soft-deleted like dos. The text the
    editor returns, the delete prompt's answer and the template engine's
    syntax check are inputs; `parses` stands for the engine's parser. */
module Templates {
  import opened Text
  import opened Ordering
  import opened Sorting
  import opened Model

  datatype Status = Saved | AlreadyExists | EmptyContent | SyntaxError | NotFound | Cancelled

  datatype Reply = Reply(store: Store, status: Status)

  /** `Where("name = ? AND deleted = ?", name, false).First`: the live
      template with that name. */
  function LiveTemplate(s: Store, name: string): (r: Option<Template>)
    requires Valid(s)
    ensures r.Some? ==> r.value.id in s.templates.rows && s.templates.rows[r.value.id] == r.value
    ensures r.Some? ==> r.value.name == name && !r.value.deleted
    ensures r.None? <==> forall k :: k in s.templates.rows ==>
      s.templates.rows[k].name != name || s.templates.rows[k].deleted
  {
    match FirstWhere(s.templates, (t: Template) => t.name == name && !t.deleted)
    case Some(k) => Some(s.templates.rows[k])
    case None => None
  }

  /** Whether any row, live or deleted, holds the name: the unique index. */
  predicate NameTaken(s: Store, name: string) {
    exists k :: k in s.templates.rows && s.templates.rows[k].name == name
  }

  /** Saving a template row that keeps its name leaves the store valid. */
  lemma SaveTemplateValid(s: Store, t: Template)
    requires Valid(s) && t.id in s.templates.rows && s.templates.rows[t.id].name == t.name
    ensures Valid(s.(templates := s.templates.(rows := s.templates.rows[t.id := t])))
  {
  }

  /** `template create <name>`. A live template of that name stops it;
      empty content after trimming and content the template parser rejects
      are not saved. Otherwise the trimmed content is inserted, and the
      unique index refuses the insert when a deleted template still holds
      the name, which goes unreported. */
  function Create(s: Store, name: string, edited: string, parses: string -> bool, now: Time): (r: Reply)
    requires Valid(s)
    ensures Valid(r.store)
    ensures r.store.dos == s.dos && r.store.tags == s.tags && r.store.links == s.links
    ensures r.store.docs == s.docs
    ensures LiveTemplate(s, name).Some? ==> r == Reply(s, AlreadyExists)
    ensures LiveTemplate(s, name).None? && TrimSpace(edited) == [] ==> r == Reply(s, EmptyContent)
    ensures r.status == SyntaxError <==>
      LiveTemplate(s, name).None? && TrimSpace(edited) != [] && !parses(TrimSpace(edited))
    ensures r.status == SyntaxError ==> r.store == s
    ensures r.status == Saved <==>
      LiveTemplate(s, name).None? && TrimSpace(edited) != [] && parses(TrimSpace(edited))
    ensures r.status == Saved && NameTaken(s, name) ==> r.store == s
    ensures r.status == Saved && !NameTaken(s, name) ==>
      && LiveTemplate(r.store, name).Some?
      && LiveTemplate(r.store, name).value.content == TrimSpace(edited)
      && LiveTemplate(r.store, name).value.id !in s.templates.rows
      && r.store.templates.rows.Keys == s.templates.rows.Keys + {LiveTemplate(r.store, name).value.id}
      && r.store.templates.rows == s.templates.rows[LiveTemplate(r.store, name).value.id := LiveTemplate(r.store, name).value]
  {
    if LiveTemplate(s, name).Some? then Reply(s, AlreadyExists)
    else
      var content := TrimSpace(edited);
      if content == [] then Reply(s, EmptyContent)
      else if !parses(content) then Reply(s, SyntaxError)
      else if NameTaken(s, name) then Reply(s, Saved)
      else
        var row := Template(NextId(s.templates), name, content, false, now, now);
        InsertTemplate(s, row);
        Reply(s.(templates := Model.Insert(s.templates, row)), Saved)
  }

  /** A fresh live template under an unused name is found by that name. */
  lemma InsertTemplate(s: Store, row: Template)
    requires Valid(s) && row.id == NextId(s.templates) && !row.deleted
    requires !NameTaken(s, row.name)
    ensures var s' := s.(templates := Model.Insert(s.templates, row));
      && Valid(s')
      && LiveTemplate(s', row.name) == Some(row)
      && s'.templates.rows.Keys == s.templates.rows.Keys + {row.id}
  {
    var s' := s.(templates := Model.Insert(s.templates, row));
    assert s'.templates.rows[row.id] == row;
    assert Valid(s');
    var found := LiveTemplate(s', row.name);
    assert found.Some?;
  }

  /** `template edit <name>`: the live template's content becomes the
      trimmed text, provided it parses. Unlike create, empty content is
      accepted. Saving refreshes the update time and changes nothing else. */
  function Edit(s: Store, name: string, edited: string, parses: string -> bool, now: Time): (r: Reply)
    requires Valid(s)
    ensures Valid(r.store)
    ensures r.store.dos == s.dos && r.store.tags == s.tags && r.store.links == s.links
    ensures r.store.docs == s.docs
    ensures LiveTemplate(s, name).None? ==> r == Reply(s, NotFound)
    ensures LiveTemplate(s, name).Some? && !parses(TrimSpace(edited)) ==> r == Reply(s, SyntaxError)
    ensures r.status == Saved <==> LiveTemplate(s, name).Some? && parses(TrimSpace(edited))
    ensures r.status == Saved ==>
      var t := LiveTemplate(s, name).value;
      && r.store.templates.rows == s.templates.rows[t.id := t.(content := TrimSpace(edited), updatedAt := now)]
      && LiveTemplate(r.store, name).Some?
      && LiveTemplate(r.store, name).value.content == TrimSpace(edited)
  {
    match LiveTemplate(s, name)
    case None => Reply(s, NotFound)
    case Some(t) =>
      var content := TrimSpace(edited);
      if !parses(content) then Reply(s, SyntaxError)
      else
        var t' := t.(content := content, updatedAt := now);
        SaveTemplateValid(s, t');
        var s' := s.(templates := s.templates.(rows := s.templates.rows[t.id := t']));
        assert s'.templates.rows[t.id] == t';
        Reply(s', Saved)
  }

  /** The delete prompt's answer: yes when, trimmed and lower-cased, it is
      "y" or "yes". */
  predicate IsYes(answer: string) {
    var a := ToLower(TrimSpace(answer));
    a == "y" || a == "yes"
  }

  /** The accepted answers spelled out: y or yes in any mix of case, with any
      surrounding white space. */
  lemma IsYesSpelledOut(answer: string)
    ensures IsYes(answer) <==>
      var t := TrimSpace(answer);
      || (|t| == 1 && t[0] in "yY")
      || (|t| == 3 && t[0] in "yY" && t[1] in "eE" && t[2] in "sS")
  {
    var t := TrimSpace(answer);
    var a := ToLower(t);
    if |t| == 1 {
      assert a == "y" <==> a[0] == 'y';
    }
    if |t| == 3 {
      assert a == "yes" <==> a[0] == 'y' && a[1] == 'e' && a[2] == 's';
    }
  }

  /** `template delete <name>`: on a yes answer the live template is marked
      deleted; saving refreshes the update time and changes nothing else. */
  function Delete(s: Store, name: string, answer: string, now: Time): (r: Reply)
    requires Valid(s)
    ensures Valid(r.store)
    ensures r.store.dos == s.dos && r.store.tags == s.tags && r.store.links == s.links
    ensures r.store.docs == s.docs
    ensures LiveTemplate(s, name).None? ==> r == Reply(s, NotFound)
    ensures LiveTemplate(s, name).Some? && !IsYes(answer) ==> r == Reply(s, Cancelled)
    ensures r.status == Saved <==> LiveTemplate(s, name).Some? && IsYes(answer)
    ensures r.status == Saved ==>
      var t := LiveTemplate(s, name).value;
      && r.store.templates.rows == s.templates.rows[t.id := t.(deleted := true, updatedAt := now)]
      && LiveTemplate(r.store, name).None?
  {
    match LiveTemplate(s, name)
    case None => Reply(s, NotFound)
    case Some(t) =>
      if !IsYes(answer) then Reply(s, Cancelled)
      else
        var t' := t.(deleted := true, updatedAt := now);
        SaveTemplateValid(s, t');
        Reply(s.(templates := s.templates.(rows := s.templates.rows[t.id := t'])), Saved)
  }

  /** A deleted template's name cannot be reused: create reports success
      but the unique index keeps the old row and adds nothing. */
  lemma DeletedNameBlocksCreate(s: Store, name: string, answer: string, edited: string,
                                parses: string -> bool, now: Time, later: Time)
    requires Valid(s) && LiveTemplate(s, name).Some? && IsYes(answer)
    requires TrimSpace(edited) != [] && parses(TrimSpace(edited))
    ensures var d := Delete(s, name, answer, now).store;
            Create(d, name, edited, parses, later) == Reply(d, Saved)
  {
    var d := Delete(s, name, answer, now).store;
    var t := LiveTemplate(s, name).value;
    assert d.templates.rows[t.id].name == name;
  }

  // ---------------------------------------------------------------- list

  const PreviewLimit: nat := 50
  const PreviewKeep: nat := 47

  /** The bytes of "...". */
  const Ellipsis: seq<byte> := [0x2E, 0x2E, 0x2E]

  /** The list preview, in bytes: newlines become spaces, and anything over
      50 bytes is cut to its first 47 bytes and an ellipsis. The cut counts
      bytes, so it may fall inside a multi-byte character. */
  function Preview(content: string): (r: seq<byte>)
    ensures |r| <= PreviewLimit
    ensures 0x0A !in r
    ensures |Utf8(NewlinesToSpaces(content))| == ByteLen(content)
    ensures ByteLen(content) <= PreviewLimit ==> r == Utf8(NewlinesToSpaces(content))
    ensures ByteLen(content) > PreviewLimit ==>
      r == Utf8(NewlinesToSpaces(content))[..PreviewKeep] + Ellipsis
  {
    var flat := NewlinesToSpaces(content);
    var bytes := Utf8(flat);
    Utf8NoNewline(flat);
    SameByteLen(content);
    if |bytes| > PreviewLimit then
      assert forall k :: 0 <= k < PreviewKeep ==> bytes[..PreviewKeep][k] == bytes[k];
      bytes[..PreviewKeep] + Ellipsis
    else bytes
  }

  /** Replacing newlines by spaces keeps the byte count: both are one byte. */
  lemma {:induction false} SameByteLen(s: string)
    ensures ByteLen(NewlinesToSpaces(s)) == ByteLen(s)
  {
    if |s| > 0 {
      SameByteLen(s[1..]);
      assert NewlinesToSpaces(s)[1..] == NewlinesToSpaces(s[1..]);
    }
  }

  /** Short ASCII content without newlines is shown whole. */
  lemma PreviewShort(content: string)
    requires IsAscii(content) && |content| <= PreviewLimit && '\n' !in content
    ensures Preview(content) == Utf8(content)
  {
    ByteLenBounds(content);
    assert NewlinesToSpaces(content) == content;
  }

  function UpdatedKey(): Template -> Key {
    (t: Template) => [Term(Num(t.updatedAt), true)]
  }

  function LiveTemplates(s: Store): (r: seq<Template>)
    requires Valid(s)
    ensures forall t :: t in r <==> t in s.templates.rows.Values && !t.deleted
  {
    var rows := Scan(s.templates);
    ScanMembers(s.templates);
    var r := Filter(rows, (t: Template) => !t.deleted);
    PresentIn(rows, r, (t: Template) => !t.deleted);
    r
  }

  lemma PresentIn<T(!new)>(rows: seq<T>, r: seq<T>, keep: T -> bool)
    requires r == Filter(rows, keep)
    ensures forall x :: x in r <==> x in rows && keep(x)
  {
    forall x ensures x in r <==> x in rows && keep(x) {
      assert x in r <==> x in multiset(r);
      assert x in rows <==> x in multiset(rows);
    }
  }

  /** `template list`: every live template, most recently updated first. */
  function List(s: Store): (r: seq<Template>)
    requires Valid(s)
    ensures forall t :: t in r <==> t in s.templates.rows.Values && !t.deleted
    ensures forall i, j :: 0 <= i < j < |r| ==> r[i].updatedAt >= r[j].updatedAt
    ensures |r| == |LiveTemplates(s)|
  {
    var live := LiveTemplates(s);
    var r := SortBy(live, UpdatedKey());
    PermutationMembers(r, live);
    forall i, j | 0 <= i < j < |r| ensures r[i].updatedAt >= r[j].updatedAt {
      assert Le(UpdatedKey()(r[i]), UpdatedKey()(r[j]));
      DescNumber(r[i].updatedAt, r[j].updatedAt);
    }
    r
  }

  lemma ListEmpty(s: Store)
    requires Valid(s)
    ensures |List(s)| == 0 <==> forall t :: t in s.templates.rows.Values ==> t.deleted
  {
    var ts := List(s);
    if |ts| > 0 {
      assert ts[0] in ts;
    }
  }

  /** One line of the listing: name and preview. */
  datatype ListRow = ListRow(name: string, preview: seq<byte>, updatedAt: Time)

  datatype Listing = NoTemplatesFound | Rows(rows: seq<ListRow>)

  function ListView(s: Store): (r: Listing)
    requires Valid(s)
    ensures r.NoTemplatesFound? <==> forall t :: t in s.templates.rows.Values ==> t.deleted
    ensures r.Rows? ==> |r.rows| == |List(s)|
    ensures r.Rows? ==> forall i :: 0 <= i < |r.rows| ==>
      r.rows[i] == ListRow(List(s)[i].name, Preview(List(s)[i].content), List(s)[i].updatedAt)
  {
    var ts := List(s);
    ListEmpty(s);
    if |ts| == 0 then NoTemplatesFound
    else
      Rows(ListRows(ts))
  }

  function ListRows(ts: seq<Template>): (r: seq<ListRow>)
    ensures |r| == |ts|
    ensures forall i :: 0 <= i < |ts| ==> r[i] == ListRow(ts[i].name, Preview(ts[i].content), ts[i].updatedAt)
  {
    seq(|ts|, i requires 0 <= i < |ts| => ListRow(ts[i].name, Preview(ts[i].content), ts[i].updatedAt))
  }
}
