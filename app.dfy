/** The dashboard: the catalog of groups, the single modal slot, the viewer
    payload and the pending delete target, with the handlers that the buttons,
    the dialogs and drag and drop invoke. Each handler is one atomic state
    transition. */
module App {
  import opened Types
  import opened Catalog
  import opened Modals
  import DragProtocol

  // ---------------------------------------------------------------------
  // Seed data

  /** The text fields of a seeded case; the seeded page sources themselves are
      opaque strings. */
  datatype SeedCase = SeedCase(title: string, prompt: string, code: string, previewHtml: string)

  function Seeded(id: string, s: SeedCase): TestCase
  {
    TestCase(id, s.title, Success, s.prompt, s.code, s.previewHtml)
  }

  /** The catalog the dashboard opens with: one group `g1` holding the three
      successful cases `c1`, `c2`, `c3`. */
  function InitialGroups(groupTitle: string, a: SeedCase, b: SeedCase, c: SeedCase): seq<TestGroup>
  {
    [TestGroup("g1", groupTitle, [Seeded("c1", a), Seeded("c2", b), Seeded("c3", c)])]
  }

  /** The seed shows three cases, all successful, in one group, and its ids
      are unique. */
  lemma InitialCatalog(groupTitle: string, a: SeedCase, b: SeedCase, c: SeedCase)
    ensures StatsOf(InitialGroups(groupTitle, a, b, c)) == Stats(3, 3, 1)
    ensures UniqueIds(InitialGroups(groupTitle, a, b, c))
  {
    var gs := InitialGroups(groupTitle, a, b, c);
    var x1, x2, x3 := Seeded("c1", a), Seeded("c2", b), Seeded("c3", c);
    var cs := [x1, x2, x3];
    assert gs[1..] == [];
    assert AllCases(gs) == cs;
    assert cs[1..] == [x2, x3] && [x2, x3][1..] == [x3] && [x3][1..] == [];
    assert SuccessIn([x3]) == 1;
    assert SuccessIn([x2, x3]) == 2;
    assert SuccessIn(cs) == 3;
    forall id ensures CountId(cs, id) <= 1 && GroupCount(gs, id) <= 1 {
      assert CountId([x3], id) == (if id == "c3" then 1 else 0);
      assert CountId([x2, x3], id) == (if id == "c2" then 1 else 0) + (if id == "c3" then 1 else 0);
    }
  }

  // ---------------------------------------------------------------------
  // Deletion

  datatype TargetKind = GroupTarget | CaseTarget

  /** What the trash button of a group or of a case card asks to delete. The
      case id is optional: a group's button records none. */
  datatype DeleteTarget = DeleteTarget(kind: TargetKind, groupId: string, caseId: Option<string>)

  /** The catalog after a confirmed deletion. A group target removes every
      group with its id; a case target with a non-empty case id removes the
      cases with that id from the groups with the target's group id; a case
      target without a case id (or with an empty one) removes nothing. */
  function AfterDelete(gs: seq<TestGroup>, t: DeleteTarget): (r: seq<TestGroup>)
    ensures t.kind == GroupTarget ==> GroupCount(r, t.groupId) == 0
    ensures t.kind == GroupTarget ==> forall x :: x != t.groupId ==> GroupCount(r, x) == GroupCount(gs, x)
    ensures t.kind == CaseTarget ==> |r| == |gs|
    ensures t.kind == CaseTarget ==> forall i :: 0 <= i < |gs| && gs[i].id != t.groupId ==> r[i] == gs[i]
    ensures t.kind == CaseTarget && (t.caseId.None? || t.caseId.value == "") ==> r == gs
  {
    if t.kind == GroupTarget then RemoveGroup(gs, t.groupId)
    else if t.caseId.Some? && t.caseId.value != "" then RemoveCase(gs, t.groupId, t.caseId.value)
    else gs
  }

  /** A confirmed deletion never breaks id uniqueness. */
  lemma AfterDeleteKeepsIdsUnique(gs: seq<TestGroup>, t: DeleteTarget)
    requires UniqueIds(gs)
    ensures UniqueIds(AfterDelete(gs, t))
  {
    if t.kind == GroupTarget {
      RemoveGroupKeepsIdsUnique(gs, t.groupId);
    } else if t.caseId.Some? && t.caseId.value != "" {
      RemoveCaseKeepsIdsUnique(gs, t.groupId, t.caseId.value);
    }
  }

  // ---------------------------------------------------------------------
  // Drag and drop

  /** A card dragged from group `src` and dropped on group `tgt`: the drop
      reads back what the drag wrote, and the case ends up in `tgt`, unchanged. */
  lemma DragThenDrop(gs: seq<TestGroup>, src: string, tgt: string, c: TestCase)
    requires UniqueIds(gs)
    requires src != tgt && GroupCount(gs, tgt) != 0
    requires Locate(gs, c.id) == Some((src, c))
    ensures DragProtocol.Decode(DragProtocol.Encode(DragProtocol.DragPayload(c.id, src)))
         == Some(DragProtocol.DragPayload(c.id, src))
    ensures Locate(MoveCase(gs, c.id, src, tgt), c.id) == Some((tgt, c))
    ensures StatsOf(MoveCase(gs, c.id, src, tgt)) == StatsOf(gs)
  {
    DragProtocol.DecodeEncode(DragProtocol.DragPayload(c.id, src));
    MoveRelocates(gs, c.id, src, tgt, c);
    MoveEffect(gs, c.id, src, tgt);
  }

  /** One more group: the cases seen so far, plus that group's cases. */
  lemma AllCasesStep(gs: seq<TestGroup>, i: nat)
    requires i < |gs|
    ensures AllCases(gs[..i + 1]) == AllCases(gs[..i]) + gs[i].cases
  {
    assert gs[..i + 1] == gs[..i] + [gs[i]];
    AllCasesAppend(gs[..i], [gs[i]]);
    assert [gs[i]][1..] == [];
  }

  // ---------------------------------------------------------------------
  // The dashboard

  class Dashboard {
    var groups: seq<TestGroup>
    var activeModal: ModalType
    var viewerData: Option<ViewerData>
    var deleteTarget: Option<DeleteTarget>
    const viewer: ContentViewer
    const form: UploadForm

    /** Ids are unique across the catalog, and the viewer holds the current
        payload with its URL in order. */
    ghost predicate Valid()
      reads this, viewer
    {
      UniqueIds(groups) && viewer.Valid() && viewer.mounted && viewer.data == viewerData
    }

    constructor (groupTitle: string, a: SeedCase, b: SeedCase, c: SeedCase)
      ensures Valid()
      ensures groups == InitialGroups(groupTitle, a, b, c)
      ensures activeModal == NoModal && viewerData.None? && deleteTarget.None?
      ensures form.Fields() == InitialFields
      ensures fresh(viewer) && fresh(form)
    {
      groups := InitialGroups(groupTitle, a, b, c);
      activeModal := NoModal;
      viewerData := None;
      deleteTarget := None;
      viewer := new ContentViewer(None);
      form := new UploadForm();
      new;
      InitialCatalog(groupTitle, a, b, c);
    }

    /** The three stat cards, accumulated group by group. */
    method ComputeStats() returns (s: Stats)
      ensures s == StatsOf(groups)
    {
      var total, success := 0, 0;
      var i := 0;
      while i < |groups|
        invariant 0 <= i <= |groups|
        invariant total == |AllCases(groups[..i])|
        invariant success == SuccessIn(AllCases(groups[..i]))
      {
        AllCasesStep(groups, i);
        SuccessInAppend(AllCases(groups[..i]), groups[i].cases);
        total := total + |groups[i].cases|;
        success := success + SuccessIn(groups[i].cases);
        i := i + 1;
      }
      assert groups[..i] == groups;
      s := Stats(total, success, |groups|);
    }

    /** "New Group": an empty group with the fresh id `id` goes to the end. */
    method AddGroup(id: string)
      requires Valid() && GroupCount(groups, id) == 0
      modifies this
      ensures Valid()
      ensures groups == old(groups) + [TestGroup(id, NewGroupTitle, [])]
      ensures StatsOf(groups) == Stats(StatsOf(old(groups)).total, StatsOf(old(groups)).success, StatsOf(old(groups)).groups + 1)
      ensures activeModal == old(activeModal) && viewerData == old(viewerData) && deleteTarget == old(deleteTarget)
    {
      AddGroupEffect(groups, id);
      groups := groups + [TestGroup(id, NewGroupTitle, [])];
    }

    /** Adds a case with the fresh id `id` to the end of the first group, or
        refuses (the alert) when there is no group. */
    method AddCase(id: string, title: string, prompt: string, code: string, html: string, status: CaseStatus)
      returns (added: bool)
      requires Valid() && CountId(AllCases(groups), id) == 0
      modifies this
      ensures Valid()
      ensures added <==> |old(groups)| > 0
      ensures !added ==> groups == old(groups)
      ensures added ==> groups == WithNewCase(old(groups), TestCase(id, title, status, prompt, code, html))
      ensures added ==> Locate(groups, id) == Some((old(groups)[0].id, TestCase(id, title, status, prompt, code, html)))
      ensures added ==> StatsOf(groups).total == StatsOf(old(groups)).total + 1
      ensures added ==> StatsOf(groups).success == StatsOf(old(groups)).success + (if status == Success then 1 else 0)
      ensures activeModal == old(activeModal) && viewerData == old(viewerData) && deleteTarget == old(deleteTarget)
    {
      if |groups| == 0 {
        return false;
      }
      var c := TestCase(id, title, status, prompt, code, html);
      AddCaseStats(groups, c);
      AddCasePlacement(groups, c);
      var first := groups[0];
      groups := groups[0 := first.(cases := first.cases + [c])];
      added := true;
    }

    /** A trash button: records what to delete and opens the confirmation;
        nothing is removed yet. */
    method InitiateDelete(kind: TargetKind, groupId: string, caseId: Option<string>)
      requires Valid()
      modifies this
      ensures Valid()
      ensures deleteTarget == Some(DeleteTarget(kind, groupId, caseId))
      ensures activeModal == Delete
      ensures groups == old(groups) && viewerData == old(viewerData)
    {
      deleteTarget := Some(DeleteTarget(kind, groupId, caseId));
      activeModal := Delete;
    }

    /** The confirmation: without a target nothing happens; with one, the
        deletion is applied and the dialog closes with the target cleared. */
    method ConfirmDelete()
      requires Valid()
      modifies this
      ensures Valid()
      ensures old(deleteTarget).None? ==> groups == old(groups) && activeModal == old(activeModal) && deleteTarget.None?
      ensures old(deleteTarget).Some? ==> groups == AfterDelete(old(groups), old(deleteTarget).value)
      ensures old(deleteTarget).Some? ==> activeModal == NoModal && deleteTarget.None?
      ensures viewerData == old(viewerData)
    {
      if deleteTarget.None? {
        return;
      }
      var t := deleteTarget.value;
      AfterDeleteKeepsIdsUnique(groups, t);
      if t.kind == GroupTarget {
        groups := RemoveGroup(groups, t.groupId);
      } else if t.caseId.Some? && t.caseId.value != "" {
        groups := RemoveCase(groups, t.groupId, t.caseId.value);
      }
      activeModal := NoModal;
      deleteTarget := None;
    }

    /** The question the delete dialog asks, given the current slot and target. */
    function DeleteQuestion(): (m: Option<string>)
      reads this
      ensures m.None? <==> activeModal != Delete
      ensures m.Some? ==> (m.value == "Group and all its cases" <==> deleteTarget.Some? && deleteTarget.value.kind == GroupTarget)
    {
      DeletePrompt(activeModal == Delete, deleteTarget.Some? && deleteTarget.value.kind == GroupTarget)
    }

    /** A button of the delete dialog. Cancel only closes the dialog (the
        target stays recorded); Delete confirms. */
    method PressDeleteButton(b: DialogButton)
      requires Valid() && activeModal == Delete
      modifies this
      ensures Valid()
      ensures b == CancelButton ==> groups == old(groups) && deleteTarget == old(deleteTarget) && activeModal == NoModal
      ensures b == DeleteButton && old(deleteTarget).Some? ==> groups == AfterDelete(old(groups), old(deleteTarget).value) && deleteTarget.None?
      ensures b == DeleteButton && old(deleteTarget).Some? ==> activeModal == NoModal
      ensures b == DeleteButton && old(deleteTarget).None? ==> groups == old(groups)
      ensures b == DeleteButton && old(deleteTarget).None? ==> activeModal == old(activeModal) && deleteTarget.None?
      ensures viewerData == old(viewerData)
    {
      match ButtonCallback(b)
      case OnClose => CloseModal();
      case OnConfirm => ConfirmDelete();
    }

    /** The code and prompt buttons, and the preview button for local content:
        the viewer shows the payload, and is the one open dialog. */
    method OpenViewer(kind: ViewerKind, title: string, content: string)
      requires Valid()
      modifies this, viewer
      ensures Valid()
      ensures viewerData == Some(ViewerData(kind, title, content)) && activeModal == Viewer
      ensures groups == old(groups) && deleteTarget == old(deleteTarget)
      ensures viewer.iframeUrl.Some? <==> kind == Preview && content != ""
      ensures viewer.iframeUrl.Some? ==> viewer.iframeUrl.value == old(viewer.created)
      ensures viewer.created == old(viewer.created) + (if kind == Preview && content != "" then 1 else 0)
      ensures viewer.revoked == old(viewer.revoked) + (if old(viewer.iframeUrl).Some? then 1 else 0)
      ensures |viewer.live| <= 1
    {
      viewerData := Some(ViewerData(kind, title, content));
      viewer.SetData(viewerData);
      activeModal := Viewer;
    }

    /** The preview button of case `c`: content starting with "http" is opened
        in a new window (returned here) and no state changes; anything else
        is shown in the viewer. */
    method PressPreview(c: TestCase) returns (newTab: Option<string>)
      requires Valid()
      modifies this, viewer
      ensures Valid()
      ensures newTab.Some? <==> "http" <= c.previewHtml
      ensures newTab.Some? ==> newTab.value == c.previewHtml
      ensures newTab.Some? ==> activeModal == old(activeModal) && viewerData == old(viewerData)
      ensures newTab.Some? ==> unchanged(viewer)
      ensures newTab.None? ==> activeModal == Viewer && viewerData == Some(ViewerData(Preview, c.title, c.previewHtml))
      ensures newTab.None? ==> (viewer.iframeUrl.Some? <==> c.previewHtml != "")
      ensures newTab.None? && viewer.iframeUrl.Some? ==> viewer.iframeUrl.value == old(viewer.created)
      ensures newTab.None? ==> viewer.created == old(viewer.created) + (if c.previewHtml != "" then 1 else 0)
      ensures newTab.None? ==> viewer.revoked == old(viewer.revoked) + (if old(viewer.iframeUrl).Some? then 1 else 0)
      ensures groups == old(groups) && deleteTarget == old(deleteTarget)
    {
      if "http" <= c.previewHtml {
        return Some(c.previewHtml);
      }
      OpenViewer(Preview, c.title, c.previewHtml);
      newTab := None;
    }

    /** "Add Test Case": opens the upload dialog with whatever the form holds. */
    method OpenUpload()
      requires Valid()
      modifies this
      ensures Valid()
      ensures activeModal == Upload
      ensures groups == old(groups) && viewerData == old(viewerData) && deleteTarget == old(deleteTarget)
      ensures form.Fields() == old(form.Fields())
    {
      activeModal := Upload;
    }

    /** Every dialog's close action: the slot empties and nothing else
        changes, in particular not the upload form's fields. */
    method CloseModal()
      requires Valid()
      modifies this
      ensures Valid()
      ensures activeModal == NoModal
      ensures groups == old(groups) && viewerData == old(viewerData) && deleteTarget == old(deleteTarget)
      ensures form.Fields() == old(form.Fields())
    {
      activeModal := NoModal;
    }

    /** "Add Case" in the upload dialog. An empty title is refused and nothing
        changes. Otherwise the values go to AddCase (with the fresh id `id`),
        and then the form resets and the dialog closes, even when AddCase
        refused the case because there is no group. */
    method SubmitUpload(id: string) returns (added: bool)
      requires Valid() && CountId(AllCases(groups), id) == 0
      modifies this, form
      ensures Valid()
      ensures old(form.title) == "" ==> !added && groups == old(groups) && activeModal == old(activeModal)
      ensures old(form.title) == "" ==> form.Fields() == old(form.Fields())
      ensures old(form.title) != "" ==> form.Fields() == InitialFields && activeModal == NoModal
      ensures old(form.title) != "" ==> (added <==> |old(groups)| > 0)
      ensures added ==> groups == WithNewCase(old(groups),
                TestCase(id, old(form.title), old(form.status), old(form.prompt), old(form.code), old(form.html)))
      ensures !added ==> groups == old(groups)
      ensures viewerData == old(viewerData) && deleteTarget == old(deleteTarget)
    {
      var r := form.Submit();
      if r.None? {
        return false;
      }
      var s := r.value;
      added := AddCase(id, s.title, s.prompt, s.code, s.html, s.status);
      CloseModal();
    }

    /** A drop on group `target` with transfer text `data`. Empty or
        unreadable text, a drop on the source group, an unknown group or a
        case no longer in the source changes nothing; otherwise the case
        leaves the source and is appended to the target. Statistics and id
        uniqueness are preserved either way. */
    method Drop(data: string, target: string)
      requires Valid()
      modifies this
      ensures Valid()
      ensures data == "" || DragProtocol.Decode(data).None? ==> groups == old(groups)
      ensures data != "" && DragProtocol.Decode(data).Some? ==>
                var p := DragProtocol.Decode(data).value;
                groups == MoveCase(old(groups), p.caseId, p.sourceGroupId, target)
      ensures StatsOf(groups) == StatsOf(old(groups))
      ensures activeModal == old(activeModal) && viewerData == old(viewerData) && deleteTarget == old(deleteTarget)
    {
      if data == "" {
        return;
      }
      var payload := DragProtocol.Decode(data);
      if payload.None? {
        return;
      }
      var p := payload.value;
      MoveEffect(groups, p.caseId, p.sourceGroupId, target);
      if p.sourceGroupId == target {
        return;
      }
      var si := FindGroup(groups, p.sourceGroupId);
      var ti := FindGroup(groups, target);
      if si.None? || ti.None? {
        return;
      }
      var found := FindCase(groups[si.value].cases, p.caseId);
      if found.Some? {
        var newGroups := groups;
        newGroups := newGroups[si.value := newGroups[si.value].(cases := WithoutCase(newGroups[si.value].cases, p.caseId))];
        newGroups := newGroups[ti.value := newGroups[ti.value].(cases := newGroups[ti.value].cases + [found.value])];
        groups := newGroups;
      }
    }
  }
}
