/** Get mode of the folder/IAM tool: walk the organization's folders and report
    the IAM bindings of each one. */
module GetMode {
  import opened Calls
  import opened Iam
  import opened FolderWalk

  /** What get mode reports for one folder: its name and its policy's bindings. */
  datatype Entry = Entry(folder: string, bindings: seq<Binding>)

  /** The outcome of get mode. */
  datatype Report =
    | EmptyOrganization       // the message that the organization has no folders
    | Listed(entries: seq<Entry>)
    | Aborted(at: string, printed: seq<Entry>)
      // a listing or policy fetch for `at` failed, after the reports in `printed` were already out

  /** `entries` reports `folders` one by one, in order: each folder's policy was
      fetched and its entry holds that policy's bindings. */
  predicate EntriesFor(getPolicy: PolicyGetter, folders: seq<string>, entries: seq<Entry>)
  {
    && |entries| == |folders|
    && forall i :: 0 <= i < |folders| ==>
         getPolicy(folders[i]).Ok? && entries[i] == Entry(folders[i], getPolicy(folders[i]).value.bindings)
  }

  /** `report` and `lookups` are what the policy loop yields on `folders`: one
      policy fetch per folder, in order, stopping at the first failing fetch. Every
      folder fetched before the failure, or every folder when none fails, has had
      its entry reported. */
  predicate Reported(getPolicy: PolicyGetter, folders: seq<string>, lookups: seq<string>, report: Report)
  {
    && lookups <= folders
    && match report
       case EmptyOrganization => false
       case Listed(entries) =>
         lookups == folders && EntriesFor(getPolicy, folders, entries)
       case Aborted(at, printed) =>
         && lookups != []
         && at == lookups[|lookups| - 1]
         && getPolicy(at).Error?
         && EntriesFor(getPolicy, lookups[..|lookups| - 1], printed)
  }

  /** The policy loop of get mode: fetch the policy of each folder in turn and
      report its bindings; a failing fetch aborts, after the folders before it
      have been reported. */
  method ReportPolicies(getPolicy: PolicyGetter, folders: seq<string>) returns (lookups: seq<string>, report: Report)
    ensures Reported(getPolicy, folders, lookups, report)
  {
    lookups := [];
    var entries: seq<Entry> := [];
    var i := 0;
    while i < |folders|
      invariant 0 <= i <= |folders|
      invariant lookups == folders[..i] && |entries| == i
      invariant forall j :: 0 <= j < i ==>
                  getPolicy(folders[j]).Ok? && entries[j] == Entry(folders[j], getPolicy(folders[j]).value.bindings)
    {
      var folderItem := folders[i];
      lookups := lookups + [folderItem];
      assert lookups == folders[..i + 1];
      var reply := getPolicy(folderItem);
      if reply.Error? {
        assert lookups[..|lookups| - 1] == folders[..i];
        return lookups, Aborted(folderItem, entries);
      }
      entries := entries + [Entry(folderItem, reply.value.bindings)];
      i := i + 1;
    }
    assert folders[..i] == folders;
    report := Listed(entries);
  }

  /** The policy loop's outcome is determined by the folders and the fetch call. */
  lemma ReportedUnique(getPolicy: PolicyGetter, folders: seq<string>,
                       lookups1: seq<string>, report1: Report, lookups2: seq<string>, report2: Report)
    requires Reported(getPolicy, folders, lookups1, report1)
    requires Reported(getPolicy, folders, lookups2, report2)
    ensures lookups1 == lookups2 && report1 == report2
  {
  }

  /** Get mode: walk the hierarchy under `org`; report an empty organization
      without fetching any policy, and otherwise run the policy loop on every
      folder found, in discovery order. `depth` is as for the walk. */
  method Get(list: Lister, getPolicy: PolicyGetter, org: string, ghost depth: nat)
    returns (lookups: seq<string>, report: Report, ghost n: nat)
    requires Ends(list, org, depth)
    ensures FirstEnd(list, org, n)
    ensures Level(list, org, 1) == Success([]) ==> report == EmptyOrganization && lookups == []
    ensures match WalkAt(list, org, n)
            case NoFolders => report == EmptyOrganization && lookups == []
            case WalkFatal(at) => report == Aborted(at, []) && lookups == []
            case Found(folders) => Reported(getPolicy, folders, lookups, report)
  {
    var w;
    w, n := WalkHierarchy(list, org, depth);
    match w
    case NoFolders =>
      return [], EmptyOrganization, n;
    case WalkFatal(at) =>
      return [], Aborted(at, []), n;
    case Found(folders) =>
      lookups, report := ReportPolicies(getPolicy, folders);
  }
}
