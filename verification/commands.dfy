/** The state transitions of the task commands in cmd/cli.go: `do`, `brag`,
    `did`, `scratch`, `unscratch`, `set prio`, `reassign`, `recruit`,
    `rename`, `doc` and `view`. Each command is a function from the store and
    its arguments to the new store and the outcome it reports. The answer of
    the interactive confirmation and the text the editor returns are inputs.

    Every command keeps the schema's constraints (`Valid`), the rule that a
    completed do carries its completion time (`CompletionConsistent`), and
    the rule that a do has at most one doc (`OneDocPerDo`). */
module Commands {
  import opened Text
  import opened Model
  import opened OrderBuilder

  /** What a command reports. `Unsupported` is `set` with a field other than
      "prio"; `Aborted` is a failed insert that ends the program. */
  datatype Status = Done | NotFound | Cancelled | Unsupported | Aborted

  datatype Reply = Reply(store: Store, status: Status)

  /** The schema's constraints and the rules the commands keep. */
  ghost predicate Good(s: Store) {
    Valid(s) && CompletionConsistent(s) && OneDocPerDo(s)
  }

  /** Saving one row keeps the completion rule when that row keeps it. */
  lemma SaveDoConsistent(s: Store, d: Do)
    requires Good(s) && d.id in s.dos.rows
    requires d.completed ==> d.completedAt.Some?
    ensures Good(SaveDo(s, d))
  {
  }

  // ---------------------------------------------------------------- do, brag

  /** `do <message>`: a new incomplete task with no completion time. */
  function DoCmd(s: Store, message: string, now: Time): (r: (Store, Do))
    requires Good(s)
    ensures Good(r.0)
    ensures FetchDo(r.0, r.1.id, LiveOnly) == Some(r.1)
    ensures r.1.id !in s.dos.rows
    ensures r.1.description == message && r.1.doType == Task && r.1.priority == Medium
    ensures !r.1.completed && r.1.completedAt.None? && !r.1.deleted
    ensures !r.1.pinned && !r.1.sensitive && !r.1.promoted && r.1.reason == ""
    ensures r.1.createdAt == now
    ensures forall k :: k in s.dos.rows ==> k in r.0.dos.rows && r.0.dos.rows[k] == s.dos.rows[k]
    ensures r.0.dos.rows == s.dos.rows[r.1.id := r.1]
    ensures r.0.tags == s.tags && r.0.links == s.links && r.0.docs == s.docs && r.0.templates == s.templates
  {
    CreateDo(s, NewDo(message, Task), now)
  }

  /** `brag <message>`: a new achievement, completed at creation time. */
  function BragCmd(s: Store, message: string, now: Time): (r: (Store, Do))
    requires Good(s)
    ensures Good(r.0)
    ensures FetchDo(r.0, r.1.id, LiveOnly) == Some(r.1)
    ensures r.1.id !in s.dos.rows
    ensures r.1.description == message && r.1.doType == Brag && r.1.priority == Medium
    ensures r.1.completed && r.1.completedAt == Some(now) && !r.1.deleted
    ensures !r.1.pinned && !r.1.sensitive && !r.1.promoted && r.1.reason == ""
    ensures r.1.createdAt == now
    ensures forall k :: k in s.dos.rows ==> k in r.0.dos.rows && r.0.dos.rows[k] == s.dos.rows[k]
    ensures r.0.dos.rows == s.dos.rows[r.1.id := r.1]
    ensures r.0.tags == s.tags && r.0.links == s.links && r.0.docs == s.docs && r.0.templates == s.templates
  {
    CreateDo(s, NewDo(message, Brag).(completed := true, completedAt := Some(now)), now)
  }

  // ---------------------------------------------------------------- did

  /** `did <id>`: a live do, once confirmed, becomes completed at `now`;
      both fields change together and nothing else does. */
  function Did(s: Store, id: nat, confirmed: bool, now: Time): (r: Reply)
    requires Good(s)
    ensures Good(r.store)
    ensures FetchDo(s, id, LiveOnly).None? ==> r == Reply(s, NotFound)
    ensures FetchDo(s, id, LiveOnly).Some? && !confirmed ==> r == Reply(s, Cancelled)
    ensures r.status == Done <==> FetchDo(s, id, LiveOnly).Some? && confirmed
    ensures r.status == Done ==>
      && r.store.dos.rows.Keys == s.dos.rows.Keys
      && r.store.dos.rows[id] == s.dos.rows[id].(completed := true, completedAt := Some(now))
      && (forall k :: k in s.dos.rows && k != id ==> r.store.dos.rows[k] == s.dos.rows[k])
      && r.store.tags == s.tags && r.store.links == s.links && r.store.docs == s.docs && r.store.templates == s.templates
  {
    match FetchDo(s, id, LiveOnly)
    case None => Reply(s, NotFound)
    case Some(d) =>
      if !confirmed then Reply(s, Cancelled)
      else
        var done := d.(completed := true, completedAt := Some(now));
        SaveDoConsistent(s, done);
        Reply(SaveDo(s, done), Done)
  }

  // ---------------------------------------------------------------- scratch

  /** `scratch <id>`: soft delete. Only live rows are found, and once
      confirmed only `deleted` changes. */
  function Scratch(s: Store, id: nat, confirmed: bool): (r: Reply)
    requires Good(s)
    ensures Good(r.store)
    ensures FetchDo(s, id, LiveOnly).None? ==> r == Reply(s, NotFound)
    ensures FetchDo(s, id, LiveOnly).Some? && !confirmed ==> r == Reply(s, Cancelled)
    ensures r.status == Done <==> FetchDo(s, id, LiveOnly).Some? && confirmed
    ensures r.status == Done ==>
      && r.store.dos.rows.Keys == s.dos.rows.Keys
      && r.store.dos.rows[id] == s.dos.rows[id].(deleted := true)
      && (forall k :: k in s.dos.rows && k != id ==> r.store.dos.rows[k] == s.dos.rows[k])
      && r.store.tags == s.tags && r.store.links == s.links && r.store.docs == s.docs && r.store.templates == s.templates
  {
    match FetchDo(s, id, LiveOnly)
    case None => Reply(s, NotFound)
    case Some(d) =>
      if !confirmed then Reply(s, Cancelled)
      else
        SaveDoConsistent(s, d.(deleted := true));
        Reply(SaveDo(s, d.(deleted := true)), Done)
  }

  /** `unscratch <id>`: finds a row whatever its deletion flag, and once
      confirmed only `deleted` changes, back to false. */
  function Unscratch(s: Store, id: nat, confirmed: bool): (r: Reply)
    requires Good(s)
    ensures Good(r.store)
    ensures id !in s.dos.rows ==> r == Reply(s, NotFound)
    ensures id in s.dos.rows && !confirmed ==> r == Reply(s, Cancelled)
    ensures r.status == Done <==> id in s.dos.rows && confirmed
    ensures r.status == Done ==>
      && r.store.dos.rows.Keys == s.dos.rows.Keys
      && r.store.dos.rows[id] == s.dos.rows[id].(deleted := false)
      && (forall k :: k in s.dos.rows && k != id ==> r.store.dos.rows[k] == s.dos.rows[k])
      && r.store.tags == s.tags && r.store.links == s.links && r.store.docs == s.docs && r.store.templates == s.templates
  {
    match FetchDo(s, id, AnyRow)
    case None => Reply(s, NotFound)
    case Some(d) =>
      if !confirmed then Reply(s, Cancelled)
      else
        SaveDoConsistent(s, d.(deleted := false));
        Reply(SaveDo(s, d.(deleted := false)), Done)
  }

  /** Scratching a live do and then resurrecting it gives back the store it
      started from. */
  lemma ScratchThenUnscratch(s: Store, id: nat)
    requires Good(s) && FetchDo(s, id, LiveOnly).Some?
    ensures Unscratch(Scratch(s, id, true).store, id, true) == Reply(s, Done)
  {
    var mid := Scratch(s, id, true).store;
    var back := Unscratch(mid, id, true).store;
    assert back.dos.rows == s.dos.rows;
  }

  /** A scratched do is hidden from every lookup of live rows. */
  lemma ScratchHides(s: Store, id: nat)
    requires Good(s) && FetchDo(s, id, LiveOnly).Some?
    ensures FetchDo(Scratch(s, id, true).store, id, LiveOnly).None?
    ensures FetchDo(Scratch(s, id, true).store, id, DeletedOnly).Some?
  {
  }

  // ---------------------------------------------------------------- set

  /** `set <field> <value> <id>`. Only the field "prio" is supported. The
      lookup keeps rows whose `deleted` is NOT false, so only soft-deleted
      dos are found; on those only `priority` changes, to `mapPriority` of
      the value. */
  function SetField(s: Store, field: string, value: string, id: nat): (r: Reply)
    requires Good(s)
    ensures Good(r.store)
    ensures field != "prio" ==> r == Reply(s, Unsupported)
    ensures field == "prio" && FetchDo(s, id, DeletedOnly).None? ==> r == Reply(s, NotFound)
    ensures r.status == Done <==> field == "prio" && FetchDo(s, id, DeletedOnly).Some?
    ensures r.status == Done ==>
      && r.store.dos.rows.Keys == s.dos.rows.Keys
      && r.store.dos.rows[id] == s.dos.rows[id].(priority := MapPriority(value))
      && (forall k :: k in s.dos.rows && k != id ==> r.store.dos.rows[k] == s.dos.rows[k])
      && r.store.tags == s.tags && r.store.links == s.links && r.store.docs == s.docs && r.store.templates == s.templates
  {
    if field != "prio" then Reply(s, Unsupported)
    else match FetchDo(s, id, DeletedOnly)
      case None => Reply(s, NotFound)
      case Some(d) =>
        SaveDoConsistent(s, d.(priority := MapPriority(value)));
        Reply(SaveDo(s, d.(priority := MapPriority(value))), Done)
  }

  /** As written, `set prio` can never change a live do: it reports that no
      such do exists and leaves the store alone. */
  lemma SetPrioMissesLiveDos(s: Store, value: string, id: nat)
    requires Good(s) && FetchDo(s, id, LiveOnly).Some?
    ensures SetField(s, "prio", value, id) == Reply(s, NotFound)
  {
  }

  // ---------------------------------------------------------------- tags

  /** `recruit <name>`: a new tag; a taken name makes the insert fail, which
      ends the program with the store unchanged. */
  function Recruit(s: Store, name: string): (r: Reply)
    requires Good(s)
    ensures Good(r.store)
    ensures r.status == Aborted <==> TagByName(s, name).Some?
    ensures r.status == Aborted ==> r.store == s
    ensures r.status == Done ==> TagByName(r.store, name).Some?
    ensures r.status == Done ==>
      exists id :: id !in s.tags.rows && r.store.tags.rows == s.tags.rows[id := Tag(id, name)]
    ensures r.status == Done ==> r.store.dos == s.dos && r.store.links == s.links
    ensures r.status == Done ==> r.store.docs == s.docs && r.store.templates == s.templates
    ensures r.status == Done ==> |r.store.tags.rows| == |s.tags.rows| + 1
    ensures r.status == Aborted || r.status == Done
  {
    match CreateTag(s, name)
    case Failed(_) => Reply(s, Aborted)
    case Created(s', t) =>
      assert s'.tags.rows[t.id].name == name;
      assert t == Tag(t.id, name);
      Reply(s', Done)
  }

  /** `rename <name> <new_name>`: the tag found by its old name keeps its
      key and changes only its name. When another tag already has the new
      name, the update is refused and the store stays as it was. */
  function Rename(s: Store, oldName: string, newName: string): (r: Reply)
    requires Good(s)
    ensures Good(r.store)
    ensures TagByName(s, oldName).None? ==> r == Reply(s, NotFound)
    ensures r.status == Done <==> TagByName(s, oldName).Some?
    ensures r.store.dos == s.dos && r.store.links == s.links && r.store.docs == s.docs
    ensures r.store.templates == s.templates
    ensures r.store.tags.rows.Keys == s.tags.rows.Keys
    ensures r.status == Done && TagByName(s, newName).None? ==>
      var t := TagByName(s, oldName).value;
      && r.store.tags.rows[t.id] == Tag(t.id, newName)
      && (forall k :: k in s.tags.rows && k != t.id ==> r.store.tags.rows[k] == s.tags.rows[k])
    ensures TagByName(s, newName).Some? && newName != oldName ==> r.store == s
  {
    match TagByName(s, oldName)
    case None => Reply(s, NotFound)
    case Some(t) =>
      var r := SaveTag(s, t.(name := newName));
      assert TagByName(s, newName).Some? && newName != oldName ==>
        var u := TagByName(s, newName).value;
        u.id in s.tags.rows && u.id != t.id && s.tags.rows[u.id].name == newName;
      Reply(r, Done)
  }

  /** `reassign <id> <name>`: a live do and an existing tag get one more
      link. Earlier links stay, so the do keeps its previous assignees and
      gains one more copy of the named tag; where it appears in the do's
      list depends on its key (`Model.AddLinkTagsLast`). */
  function Reassign(s: Store, id: nat, name: string): (r: Reply)
    requires Good(s)
    ensures Good(r.store)
    ensures FetchDo(s, id, LiveOnly).None? || TagByName(s, name).None? ==> r == Reply(s, NotFound)
    ensures r.status == Done <==> FetchDo(s, id, LiveOnly).Some? && TagByName(s, name).Some?
    ensures r.status == Done ==>
      && r.store.links == s.links + [DoTag(id, TagByName(s, name).value.id)]
      && multiset(TagsOf(r.store, id)) == multiset(TagsOf(s, id)) + multiset{TagByName(s, name).value}
      && (forall other :: other != id ==> TagsOf(r.store, other) == TagsOf(s, other))
      && r.store.dos == s.dos && r.store.tags == s.tags && r.store.docs == s.docs
      && r.store.templates == s.templates
  {
    match FetchDo(s, id, LiveOnly)
    case None => Reply(s, NotFound)
    case Some(d) =>
      match TagByName(s, name)
      case None => Reply(s, NotFound)
      case Some(t) =>
        AddLinkGood(s, id, t);
        Reply(AddLink(s, id, t.id), Done)
  }

  lemma AddLinkGood(s: Store, id: nat, t: Tag)
    requires Good(s) && t.id in s.tags.rows && s.tags.rows[t.id] == t
    ensures Good(AddLink(s, id, t.id))
    ensures multiset(TagsOf(AddLink(s, id, t.id), id)) == multiset(TagsOf(s, id)) + multiset{t}
    ensures forall other :: other != id ==> TagsOf(AddLink(s, id, t.id), other) == TagsOf(s, other)
  {
    AddLinkTags(s, id, t);
  }

  // ---------------------------------------------------------------- docs

  /** `doc <id>`: the edited text becomes the live do's documentation,
      updating the existing record or creating the first one. The text is
      stored as the editor returned it, even when empty. */
  function DocCmd(s: Store, id: nat, edited: string): (r: Reply)
    requires Good(s)
    ensures Good(r.store)
    ensures FetchDo(s, id, LiveOnly).None? ==> r == Reply(s, NotFound)
    ensures r.status == Done <==> FetchDo(s, id, LiveOnly).Some?
    ensures r.status == Done ==> DocOf(r.store, id).id != 0 && DocOf(r.store, id).text == edited
    ensures r.status == Done && DocOf(s, id).id != 0 ==> DocOf(r.store, id).id == DocOf(s, id).id
    ensures r.store.dos == s.dos && r.store.tags == s.tags && r.store.links == s.links
    ensures forall k :: k in s.docs.rows && s.docs.rows[k].doId != id ==>
      k in r.store.docs.rows && r.store.docs.rows[k] == s.docs.rows[k]
    ensures r.store.templates == s.templates
    ensures r.store.docs.rows.Keys <= s.docs.rows.Keys + {NextId(s.docs)}
    ensures forall k :: k in r.store.docs.rows && k !in s.docs.rows ==> r.store.docs.rows[k].doId == id
  {
    match FetchDo(s, id, LiveOnly)
    case None => Reply(s, NotFound)
    case Some(_) => Reply(SaveDoc(s, id, edited), Done)
  }

  /** The save step of `doc`: `Save` of the loaded doc, or `Create` of a
      new one. */
  function SaveDoc(s: Store, id: nat, edited: string): (r: Store)
    requires Good(s)
    ensures Good(r)
    ensures DocOf(r, id).id != 0 && DocOf(r, id).text == edited
    ensures DocOf(s, id).id != 0 ==> DocOf(r, id).id == DocOf(s, id).id
    ensures r.dos == s.dos && r.tags == s.tags && r.links == s.links
    ensures forall k :: k in s.docs.rows && s.docs.rows[k].doId != id ==>
      k in r.docs.rows && r.docs.rows[k] == s.docs.rows[k]
    ensures r.templates == s.templates
    ensures r.docs.rows.Keys <= s.docs.rows.Keys + {NextId(s.docs)}
    ensures forall k :: k in r.docs.rows && k !in s.docs.rows ==> r.docs.rows[k].doId == id
  {
    var existing := DocOf(s, id);
    if existing.id != 0 then
      UpdatedDocFound(s, id, edited);
      s.(docs := s.docs.(rows := s.docs.rows[existing.id := existing.(text := edited)]))
    else
      InsertedDocFound(s, id, edited);
      s.(docs := Insert(s.docs, DoDoc(NextId(s.docs), id, edited)))
  }

  lemma UpdatedDocFound(s: Store, id: nat, edited: string)
    requires Good(s) && DocOf(s, id).id != 0
    ensures var k := DocOf(s, id).id;
      var s' := s.(docs := s.docs.(rows := s.docs.rows[k := DocOf(s, id).(text := edited)]));
      && Good(s')
      && DocOf(s', id) == DocOf(s, id).(text := edited)
      && (forall j :: j in s.docs.rows && s.docs.rows[j].doId != id ==> s'.docs.rows[j] == s.docs.rows[j])
      && DocRowsAdded(s, s', id)
  {
    var row := DocOf(s, id).(text := edited);
    var s' := s.(docs := s.docs.(rows := s.docs.rows[row.id := row]));
    ReplaceDocGood(s, row);
    TheDoc(s', row);
    ReplaceDocFrame(s, row);
  }

  /** Overwriting a doc in place touches no other do's doc and adds no key. */
  lemma ReplaceDocFrame(s: Store, row: DoDoc)
    requires Valid(s) && row.id in s.docs.rows && s.docs.rows[row.id].doId == row.doId
    ensures var s' := s.(docs := s.docs.(rows := s.docs.rows[row.id := row]));
      && (forall j :: j in s.docs.rows && s.docs.rows[j].doId != row.doId ==> s'.docs.rows[j] == s.docs.rows[j])
      && DocRowsAdded(s, s', row.doId)
  {
    var s' := s.(docs := s.docs.(rows := s.docs.rows[row.id := row]));
    assert s'.docs.rows.Keys == s.docs.rows.Keys;
  }

  lemma InsertedDocFound(s: Store, id: nat, edited: string)
    requires Good(s) && DocOf(s, id).id == 0
    ensures var row := DoDoc(NextId(s.docs), id, edited);
      var s' := s.(docs := Insert(s.docs, row));
      && Good(s') && DocOf(s', id) == row
      && s'.docs.rows == s.docs.rows[NextId(s.docs) := row]
      && DocRowsAdded(s, s', id)
      && (forall j :: j in s.docs.rows && s.docs.rows[j].doId != id ==> s'.docs.rows[j] == s.docs.rows[j])
  {
    var row := DoDoc(NextId(s.docs), id, edited);
    var s' := s.(docs := Insert(s.docs, row));
    InsertDocGood(s, row);
    TheDoc(s', row);
  }

  /** At most the next key was added, and only for the do `id`. */
  ghost predicate DocRowsAdded(s: Store, s': Store, id: nat)
    requires TableValid(s.docs)
  {
    && s'.docs.rows.Keys <= s.docs.rows.Keys + {NextId(s.docs)}
    && (forall k :: k in s'.docs.rows && k !in s.docs.rows ==> s'.docs.rows[k].doId == id)
  }

  /** Overwriting a doc in place, for the same do, keeps the store good. */
  lemma ReplaceDocGood(s: Store, row: DoDoc)
    requires Good(s) && row.id in s.docs.rows && s.docs.rows[row.id].doId == row.doId
    ensures Good(s.(docs := s.docs.(rows := s.docs.rows[row.id := row])))
  {
    var s' := s.(docs := s.docs.(rows := s.docs.rows[row.id := row]));
    assert Valid(s');
    assert OneDocPerDo(s') by {
      forall a, b | a in s'.docs.rows && b in s'.docs.rows && s'.docs.rows[a].doId == s'.docs.rows[b].doId
        ensures a == b
      {
        assert s'.docs.rows[a].doId == s.docs.rows[a].doId;
        assert s'.docs.rows[b].doId == s.docs.rows[b].doId;
      }
    }
  }

  /** Inserting the first doc of a do keeps the store good. */
  lemma InsertDocGood(s: Store, row: DoDoc)
    requires Good(s) && row.id == NextId(s.docs)
    requires forall k :: k in s.docs.rows ==> s.docs.rows[k].doId != row.doId
    ensures Good(s.(docs := Insert(s.docs, row)))
  {
    var s' := s.(docs := Insert(s.docs, row));
    assert Valid(s');
    assert OneDocPerDo(s') by {
      forall a, b | a in s'.docs.rows && b in s'.docs.rows && s'.docs.rows[a].doId == s'.docs.rows[b].doId
        ensures a == b
      {
        if a != row.id && b != row.id {
          assert s'.docs.rows[a] == s.docs.rows[a] && s'.docs.rows[b] == s.docs.rows[b];
        }
      }
    }
  }

  /** In a good store, a stored doc is the doc its do loads. */
  lemma TheDoc(s: Store, row: DoDoc)
    requires Good(s) && row.id in s.docs.rows && s.docs.rows[row.id] == row
    ensures DocOf(s, row.doId) == row
  {
    assert DocOf(s, row.doId).id != 0;
  }

  /** What `view <id>` shows. */
  datatype View = NoSuchDo | NoDocumentation(doId: nat) | Documentation(description: string, text: string)

  /** `view <id>`: a live do's documentation, or a notice that it has none. */
  function ViewCmd(s: Store, id: nat): (r: View)
    requires Valid(s)
    ensures r.NoSuchDo? <==> FetchDo(s, id, LiveOnly).None?
    ensures r.NoDocumentation? ==>
      r.doId == id && forall k :: k in s.docs.rows ==> s.docs.rows[k].doId != id
    ensures r.Documentation? ==>
      exists k :: k in s.docs.rows && s.docs.rows[k].doId == id && s.docs.rows[k].text == r.text
    ensures r.Documentation? ==> r.description == s.dos.rows[id].description && r.text == DocOf(s, id).text
    ensures r.Documentation? && OneDocPerDo(s) ==>
      forall k :: k in s.docs.rows && s.docs.rows[k].doId == id ==> s.docs.rows[k].text == r.text
  {
    match FetchDo(s, id, LiveOnly)
    case None => NoSuchDo
    case Some(d) =>
      var doc := DocOf(s, id);
      if doc.id == 0 then NoDocumentation(id) else Documentation(d.description, doc.text)
  }

  /** What `doc` saves, `view` shows. */
  lemma DocThenView(s: Store, id: nat, edited: string)
    requires Good(s) && FetchDo(s, id, LiveOnly).Some?
    ensures ViewCmd(DocCmd(s, id, edited).store, id)
            == Documentation(s.dos.rows[id].description, edited)
  {
  }
}
