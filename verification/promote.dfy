/** `promote <id>` (cmd/promote.go) and the file it writes through the
    virtual file system (cmd/vfs_helper.go, `CreatePromotedFile`). The file
    system itself is external: whether it accepts the new file is an input,
    and the file the command asks for is part of the outcome. */
module Promote {
  import opened Text
  import opened Model

  /** A do can be promoted while it is neither deleted nor promoted. */
  function Eligible(s: Store, id: nat): (r: Option<Do>)
    ensures r.Some? <==> id in s.dos.rows && !s.dos.rows[id].deleted && !s.dos.rows[id].promoted
    ensures r.Some? ==> r.value == s.dos.rows[id]
  {
    match FetchDo(s, id, LiveOnly)
    case Some(d) => if d.promoted then None else Some(d)
    case None => None
  }

  /** The documentation handed to the file: the doc's text, or "" without one. */
  function DocContent(s: Store, id: nat): (r: string)
    requires Valid(s)
    ensures (forall k :: k in s.docs.rows ==> s.docs.rows[k].doId != id) ==> r == ""
    ensures (exists k :: k in s.docs.rows && s.docs.rows[k].doId == id) ==>
      exists k :: k in s.docs.rows && s.docs.rows[k].doId == id && s.docs.rows[k].text == r
    ensures OneDocPerDo(s) ==>
      forall k :: k in s.docs.rows && s.docs.rows[k].doId == id ==> s.docs.rows[k].text == r
  {
    var doc := DocOf(s, id);
    if doc.id != 0 then doc.text else ""
  }

  const Suffix: string := ".do"

  /** The `.do` extension is added unless the name already has it. */
  function NormaliseName(filename: string): (r: string)
    ensures HasSuffix(r, Suffix)
    ensures HasSuffix(filename, Suffix) ==> r == filename
    ensures !HasSuffix(filename, Suffix) ==> r == filename + Suffix
  {
    if HasSuffix(filename, Suffix) then filename
    else
      assert (filename + Suffix)[|filename + Suffix| - |Suffix|..] == Suffix;
      filename + Suffix
  }

  /** Normalising twice is normalising once. */
  lemma NormaliseIdempotent(filename: string)
    ensures NormaliseName(NormaliseName(filename)) == NormaliseName(filename)
  {
  }

  /** The file body: the description as a heading, a blank line, the doc. */
  function FileContent(description: string, doc: string): (r: string)
    ensures |r| == |description| + |doc| + 4
    ensures r[..2] == "# " && r[|r| - |doc|..] == doc
    ensures r[2..2 + |description|] == description
    ensures r[2 + |description|..4 + |description|] == "\n\n"
  {
    "# " + description + "\n\n" + doc
  }

  /** The position of the first newline, or the length when there is none. */
  function FirstNewline(s: string): (n: nat)
    ensures n <= |s|
    ensures '\n' !in s[..n]
    ensures n < |s| ==> s[n] == '\n'
  {
    if |s| == 0 || s[0] == '\n' then 0
    else
      var n := 1 + FirstNewline(s[1..]);
      assert s[..n] == [s[0]] + s[1..][..n - 1];
      n
  }

  /** Reading a promoted file back: the heading line and what follows the
      blank line. */
  function Heading(content: string): string {
    if |content| >= 2 then content[2..2 + FirstNewline(content[2..])] else ""
  }

  function Body(content: string): string {
    var end := 2 + FirstNewline(if |content| >= 2 then content[2..] else "");
    if end + 2 <= |content| then content[end + 2..] else ""
  }

  lemma {:induction false} FirstNewlineAt(a: string, b: string)
    requires '\n' !in a && |b| > 0 && b[0] == '\n'
    ensures FirstNewline(a + b) == |a|
  {
    if |a| > 0 {
      assert (a + b)[1..] == a[1..] + b;
      assert '\n' !in a[1..];
      FirstNewlineAt(a[1..], b);
    } else {
      assert a + b == b;
    }
  }

  /** For a one-line description the file gives back both parts unchanged. */
  lemma FileContentRoundTrip(description: string, doc: string)
    requires '\n' !in description
    ensures Heading(FileContent(description, doc)) == description
    ensures Body(FileContent(description, doc)) == doc
  {
    var c := FileContent(description, doc);
    assert c[2..] == description + ("\n\n" + doc);
    FirstNewlineAt(description, "\n\n" + doc);
  }

  /** What `promote` ends with. `Promoted` records the file requested, its
      content, and the name the success message prints. */
  datatype Outcome =
    | NotEligible
    | EmptyFilename
    | FileSystemFailed
    | Promoted(file: string, content: string, reported: string)

  datatype Reply = Reply(store: Store, outcome: Outcome)

  /** `promote <id>`: `line` is what the user typed for the file name and
      `accepted` whether the file system opened and took the new file. Only
      a successful file creation marks the do promoted. */
  function PromoteCmd(s: Store, id: nat, line: string, accepted: bool): (r: Reply)
    requires Valid(s) && CompletionConsistent(s)
    ensures Valid(r.store) && CompletionConsistent(r.store)
    ensures Eligible(s, id).None? ==> r == Reply(s, NotEligible)
    ensures Eligible(s, id).Some? && TrimSpace(line) == [] ==> r == Reply(s, EmptyFilename)
    ensures Eligible(s, id).Some? && TrimSpace(line) != [] && !accepted ==> r == Reply(s, FileSystemFailed)
    ensures r.outcome.Promoted? <==> Eligible(s, id).Some? && TrimSpace(line) != [] && accepted
    ensures r.outcome.Promoted? ==>
      && r.outcome.file == NormaliseName(TrimSpace(line))
      && r.outcome.content == FileContent(s.dos.rows[id].description, DocContent(s, id))
      && r.outcome.reported == TrimSpace(line) + Suffix
      && r.store.dos.rows.Keys == s.dos.rows.Keys
      && r.store.dos.rows[id] == s.dos.rows[id].(promoted := true)
      && (forall k :: k in s.dos.rows && k != id ==> r.store.dos.rows[k] == s.dos.rows[k])
      && r.store.tags == s.tags && r.store.docs == s.docs && r.store.links == s.links
      && r.store.templates == s.templates
  {
    match Eligible(s, id)
    case None => Reply(s, NotEligible)
    case Some(d) =>
      var name := TrimSpace(line);
      if name == [] then Reply(s, EmptyFilename)
      else if !accepted then Reply(s, FileSystemFailed)
      else
        var file := NormaliseName(name);
        var content := FileContent(d.description, DocContent(s, id));
        MarkPromoted(s, id);
        Reply(SaveDo(s, d.(promoted := true)), Promoted(file, content, name + Suffix))
  }

  /** Marking an eligible do promoted changes that one flag and nothing else. */
  lemma MarkPromoted(s: Store, id: nat)
    requires Valid(s) && CompletionConsistent(s) && Eligible(s, id).Some?
    ensures var r := SaveDo(s, s.dos.rows[id].(promoted := true));
      && Valid(r) && CompletionConsistent(r)
      && r.dos.rows.Keys == s.dos.rows.Keys
      && r.dos.rows[id] == s.dos.rows[id].(promoted := true)
      && (forall k :: k in s.dos.rows && k != id ==> r.dos.rows[k] == s.dos.rows[k])
      && r.tags == s.tags && r.docs == s.docs && r.links == s.links
      && r.templates == s.templates
  {
    var r := SaveDo(s, s.dos.rows[id].(promoted := true));
    assert forall k :: k in r.dos.rows && r.dos.rows[k].completed ==> r.dos.rows[k].completedAt.Some? by {
      forall k | k in r.dos.rows && r.dos.rows[k].completed ensures r.dos.rows[k].completedAt.Some? {
        if k != id { assert r.dos.rows[k] == s.dos.rows[k]; }
      }
    }
  }

  /** A promoted do is not eligible again: a second promote finds nothing. */
  lemma PromoteOnce(s: Store, id: nat, line: string, line2: string, accepted2: bool)
    requires Valid(s) && CompletionConsistent(s)
    requires PromoteCmd(s, id, line, true).outcome.Promoted?
    ensures var s' := PromoteCmd(s, id, line, true).store;
            PromoteCmd(s', id, line2, accepted2) == Reply(s', NotEligible)
  {
  }

  /** The success message appends ".do" to the typed name, so for a name
      already ending in ".do" it names a file other than the one created. */
  lemma ReportedNameDiffers(s: Store, id: nat, line: string)
    requires Valid(s) && CompletionConsistent(s)
    requires PromoteCmd(s, id, line, true).outcome.Promoted?
    ensures var o := PromoteCmd(s, id, line, true).outcome;
            o.reported == o.file <==> !HasSuffix(TrimSpace(line), Suffix)
  {
    var name := TrimSpace(line);
    if HasSuffix(name, Suffix) {
      assert |name + Suffix| != |name|;
    }
  }
}
