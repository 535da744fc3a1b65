/** The three dialogs of the dashboard: the upload form with its own field
    state, the content viewer that owns at most one object URL at a time, and
    the delete confirmation that only dispatches its two buttons. */
module Modals {
  import opened Types

  // ---------------------------------------------------------------------
  // Upload form

  /** Text shown next to the file button while no file has been picked. */
  const NoFileChosen := "No file chosen"

  /** The six fields of the upload form, as one value. */
  datatype FormFields = FormFields(
    title: string,
    prompt: string,
    code: string,
    html: string,
    status: CaseStatus,
    fileName: string)

  /** The state the form starts in and returns to after a submission. */
  const InitialFields := FormFields("", "", "", "", Success, NoFileChosen)

  /** What a submission hands to the dashboard. */
  datatype Submission = Submission(
    title: string,
    prompt: string,
    code: string,
    html: string,
    status: CaseStatus)

  /** The field state of the upload dialog. Its fields live as long as the
      dashboard does, whether the dialog is shown or not, so closing the
      dialog keeps everything typed so far. */
  class UploadForm {
    var title: string
    var prompt: string
    var code: string
    var html: string
    var status: CaseStatus
    var fileName: string

    function Fields(): FormFields
      reads this
    {
      FormFields(title, prompt, code, html, status, fileName)
    }

    constructor ()
      ensures Fields() == InitialFields
    {
      title, prompt, code, html := "", "", "", "";
      status := Success;
      fileName := NoFileChosen;
    }

    method EditTitle(v: string)
      modifies this
      ensures Fields() == old(Fields()).(title := v)
    {
      title := v;
    }

    method EditPrompt(v: string)
      modifies this
      ensures Fields() == old(Fields()).(prompt := v)
    {
      prompt := v;
    }

    method EditCode(v: string)
      modifies this
      ensures Fields() == old(Fields()).(code := v)
    {
      code := v;
    }

    method EditHtml(v: string)
      modifies this
      ensures Fields() == old(Fields()).(html := v)
    {
      html := v;
    }

    /** The status select changed to the option value `v`; the select offers
        only the two status values. */
    method SelectStatus(v: string)
      requires ParseStatus(v).Some?
      modifies this
      ensures StatusValue(status) == v
      ensures Fields() == old(Fields()).(status := ParseStatus(v).value)
    {
      status := ParseStatus(v).value;
    }

    /** The file input changed: a picked file shows its name (its content
        arrives later, through FileLoaded); an emptied input changes nothing. */
    method ChooseFile(name: Option<string>)
      modifies this
      ensures name.Some? ==> Fields() == old(Fields()).(fileName := name.value)
      ensures name.None? ==> Fields() == old(Fields())
    {
      if name.Some? {
        fileName := name.value;
      }
    }

    /** The file's text has been read: it becomes the HTML, and it also fills
        the code field, but only while that field is empty. */
    method FileLoaded(content: string)
      modifies this
      ensures html == content
      ensures old(code) == "" ==> code == content
      ensures old(code) != "" ==> code == old(code)
      ensures title == old(title) && prompt == old(prompt)
      ensures status == old(status) && fileName == old(fileName)
    {
      html := content;
      if code == "" {
        code := content;
      }
    }

    /** Submits the form. An empty title is refused and nothing changes;
        any other title (blank ones included) hands over the current
        values and resets the form to its initial state. */
    method Submit() returns (r: Option<Submission>)
      modifies this
      ensures old(title) == "" ==> r.None? && Fields() == old(Fields())
      ensures old(title) != "" ==> r == Some(Submission(old(title), old(prompt), old(code), old(html), old(status)))
      ensures old(title) != "" ==> Fields() == InitialFields
    {
      if title == "" {
        return None;
      }
      r := Some(Submission(title, prompt, code, html, status));
      title, prompt, code, html := "", "", "", "";
      fileName := NoFileChosen;
      status := Success;
    }
  }

  // ---------------------------------------------------------------------
  // Content viewer

  /** A payload needs an object URL exactly when it is a preview with
      non-empty content. */
  predicate NeedsUrl(d: Option<ViewerData>)
  {
    d.Some? && d.value.kind == Preview && d.value.content != ""
  }

  /** The object URL lifecycle of the viewer. URLs are numbered in the order
      they are created; `live` holds those created and not yet revoked. */
  class ContentViewer {
    var data: Option<ViewerData>
    var iframeUrl: Option<nat>
    var live: set<nat>
    var created: nat
    var revoked: nat
    var mounted: bool

    /** Every URL created is either revoked or live; while mounted the only
        live URL is the one the frame shows, and there is one exactly when the
        payload needs it; once unmounted nothing is live. */
    ghost predicate Valid()
      reads this
    {
      created == revoked + |live| &&
      (forall u :: u in live ==> u < created) &&
      (mounted ==> (iframeUrl.Some? <==> NeedsUrl(data))) &&
      (mounted ==> live == if iframeUrl.Some? then {iframeUrl.value} else {}) &&
      (!mounted ==> live == {})
    }

    /** First render with payload `d`, and the effect that follows it. */
    constructor (d: Option<ViewerData>)
      ensures Valid() && mounted && data == d
      ensures created == (if NeedsUrl(d) then 1 else 0) && revoked == 0
    {
      data := d;
      mounted := true;
      revoked := 0;
      if NeedsUrl(d) {
        iframeUrl := Some(0);
        live := {0};
        created := 1;
      } else {
        iframeUrl := None;
        live := {};
        created := 0;
      }
    }

    /** A new payload: the previous effect's cleanup revokes the URL it
        created, if any, then the effect creates a URL for the new payload if
        it needs one. At most one URL is ever live. */
    method SetData(d: Option<ViewerData>)
      requires Valid() && mounted
      modifies this
      ensures Valid() && mounted && data == d
      ensures revoked == old(revoked) + (if old(iframeUrl).Some? then 1 else 0)
      ensures created == old(created) + (if NeedsUrl(d) then 1 else 0)
      ensures old(iframeUrl).Some? ==> old(iframeUrl).value !in live
      ensures iframeUrl.Some? ==> iframeUrl.value == old(created)
      ensures |live| <= 1
    {
      if iframeUrl.Some? {
        live := live - {iframeUrl.value};
        revoked := revoked + 1;
      }
      data := d;
      if NeedsUrl(d) {
        assert created !in live;
        iframeUrl := Some(created);
        live := {created};
        created := created + 1;
      } else {
        iframeUrl := None;
      }
    }

    /** The viewer leaves the page: the cleanup revokes the live URL. */
    method Unmount()
      requires Valid() && mounted
      modifies this
      ensures Valid() && !mounted
      ensures live == {} && created == revoked
      ensures data == old(data) && created == old(created)
    {
      if iframeUrl.Some? {
        revoked := revoked + 1;
      }
      live := {};
      mounted := false;
    }
  }

  /** What the viewer body shows: a frame on an object URL, or the text as
      is. */
  datatype ViewerBody = Frame(url: nat) | Text(text: string)

  /** A rendered viewer: heading, body and the two footer labels. */
  datatype ViewerScreen = ViewerScreen(title: string, body: ViewerBody, chars: nat, mode: string)

  /** The footer's mode label, the kind's wire value in capitals. */
  function ModeLabel(k: ViewerKind): string
  {
    match k
    case Code => "CODE"
    case Preview => "PREVIEW"
    case Prompt => "PROMPT"
  }

  /** The viewer as drawn for the open flag, the payload and the current URL. */
  function Render(isOpen: bool, data: Option<ViewerData>, url: Option<nat>): (v: Option<ViewerScreen>)
    ensures v.None? <==> !isOpen || data.None?
    ensures v.Some? ==> v.value.title == data.value.title
    ensures v.Some? ==> v.value.chars == |data.value.content|
    ensures v.Some? ==> v.value.mode == ModeLabel(data.value.kind)
    ensures v.Some? ==> (v.value.body.Frame? <==> data.value.kind == Preview && url.Some?)
    ensures v.Some? && v.value.body.Frame? ==> url == Some(v.value.body.url)
    ensures v.Some? && v.value.body.Text? ==> v.value.body.text == data.value.content
  {
    if !isOpen || data.None? then None
    else
      var d := data.value;
      var body := if d.kind == Preview && url.Some? then Frame(url.value) else Text(d.content);
      Some(ViewerScreen(d.title, body, |d.content|, ModeLabel(d.kind)))
  }

  /** The mode labels tell the three kinds apart. */
  lemma ModeLabelsDistinct(a: ViewerKind, b: ViewerKind)
    ensures ModeLabel(a) == ModeLabel(b) <==> a == b
  {
  }

  /** In a mounted viewer, an open dialog shows a frame exactly for a preview
      with non-empty content, and that frame's URL is live; everything else
      shows the content as text. */
  lemma FrameOnlyOnLiveUrl(v: ContentViewer, isOpen: bool)
    requires v.Valid() && v.mounted && isOpen && v.data.Some?
    ensures Render(isOpen, v.data, v.iframeUrl).Some?
    ensures Render(isOpen, v.data, v.iframeUrl).value.body.Frame? <==> NeedsUrl(v.data)
    ensures Render(isOpen, v.data, v.iframeUrl).value.body.Frame? ==>
              Render(isOpen, v.data, v.iframeUrl).value.body.url in v.live
    ensures Render(isOpen, v.data, v.iframeUrl).value.body.Text? ==>
              Render(isOpen, v.data, v.iframeUrl).value.body.text == v.data.value.content
  {
  }

  // ---------------------------------------------------------------------
  // Delete confirmation

  datatype DialogButton = CancelButton | DeleteButton

  /** The two callbacks the dialog is given by the dashboard. */
  datatype DialogCallback = OnClose | OnConfirm

  /** Cancel closes, Delete confirms. */
  function ButtonCallback(b: DialogButton): (cb: DialogCallback)
    ensures cb == OnConfirm <==> b == DeleteButton
    ensures cb == OnClose <==> b == CancelButton
  {
    match b
    case CancelButton => OnClose
    case DeleteButton => OnConfirm
  }

  /** The object of the question the dialog asks, or None when closed. */
  function DeletePrompt(isOpen: bool, isGroup: bool): (m: Option<string>)
    ensures m.None? <==> !isOpen
    ensures m.Some? ==> (m.value == "Group and all its cases" <==> isGroup)
  {
    if !isOpen then None
    else if isGroup then Some("Group and all its cases")
    else Some("Test Case")
  }
}
