/** The content model of the report dashboard: test cases, the groups that own
    them, the derived statistics, the modal slot and the viewer payload. */
module Types {

  /** The conventional optional value, used where the source has `null` or `undefined`. */
  datatype Option<+T> = None | Some(value: T)

  /** Outcome of a test case: a closed enumeration of exactly two values. */
  datatype CaseStatus = Success | Fail

  /** One demonstration record. Every field except `status` is a string. */
  datatype TestCase = TestCase(
    id: string,
    title: string,
    status: CaseStatus,
    prompt: string,
    code: string,
    previewHtml: string)

  /** A named, ordered bucket that owns its cases. */
  datatype TestGroup = TestGroup(id: string, title: string, cases: seq<TestCase>)

  /** The derived counts shown on the three stat cards. */
  datatype Stats = Stats(total: nat, success: nat, groups: nat)

  /** The single modal slot: at most one of the three modals is open at a time. */
  datatype ModalType = NoModal | Upload | Viewer | Delete

  /** What the content viewer is showing. */
  datatype ViewerKind = Code | Preview | Prompt

  /** The transient payload of the content viewer. */
  datatype ViewerData = ViewerData(kind: ViewerKind, title: string, content: string)

  /** The wire value of a status, as stored in the enum and in the status <select>. */
  function StatusValue(s: CaseStatus): string
  {
    match s
    case Success => "success"
    case Fail => "fail"
  }

  /** Reads back the value of the status <select>; anything else is not a status. */
  function ParseStatus(v: string): (s: Option<CaseStatus>)
    ensures s.Some? ==> StatusValue(s.value) == v
    ensures s.None? ==> v != "success" && v != "fail"
  {
    if v == "success" then Some(Success)
    else if v == "fail" then Some(Fail)
    else None
  }

  /** The two statuses have distinct wire values, and each reads back as itself. */
  lemma StatusValueRoundTrip(s: CaseStatus)
    ensures ParseStatus(StatusValue(s)) == Some(s)
    ensures StatusValue(s) != StatusValue(if s == Success then Fail else Success)
  {
  }
}
