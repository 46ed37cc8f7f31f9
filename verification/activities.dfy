/** `find_targeted_activity_details`: resolving a (module name, project
    name) query to the (module_id, activity_id) pair of one activity in the
    directory of current activities. */
module Activities {
  import opened Wrappers
  import Text

  /** One activity: its display name and the identifiers a declaration is
      filed under. */
  datatype Activity = Activity(name: string, moduleId: int, activityId: int)

  /** The activities of one module under its "project" and "quest" keys.
      None stands for a key that is absent or holds None; `dict.get` does not
      tell the two apart. */
  datatype Group = Group(project: Option<seq<Activity>>, quest: Option<seq<Activity>>)

  /** The directory: module name and group pairs in the dictionary's
      insertion order, which is the order the scan visits them. */
  type Directory = seq<(string, Group)>

  /** Why resolution fails. */
  datatype ResolveError =
    | NotFound                  // ValueError("Could not find matching UV/project")
    | QuestMissing(uv: string)  // TypeError from `None[0]`: no truthy "project", no "quest"
    | QuestEmpty(uv: string)    // IndexError from `[][0]`: no truthy "project", empty "quest"

  /** Python truthiness of an optional list: present and non-empty. */
  predicate Truthy(activities: Option<seq<Activity>>) {
    activities.Some? && |activities.value| > 0
  }

  /** The one activity of a matched module that is compared with the
      project name: the first project if there is any, otherwise the first
      quest, and an error where indexing the quest list fails. */
  function Candidate(uv: string, group: Group): (c: Result<Activity, ResolveError>)
    ensures c.Success? <==> Truthy(group.project) || Truthy(group.quest)
    ensures Truthy(group.project) ==> c == Success(group.project.value[0])
    ensures !Truthy(group.project) && Truthy(group.quest) ==> c == Success(group.quest.value[0])
    ensures !Truthy(group.project) && group.quest.None? ==> c == Failure(QuestMissing(uv))
    ensures !Truthy(group.project) && group.quest == Some([]) ==> c == Failure(QuestEmpty(uv))
  {
    if Truthy(group.project) then
      Success(group.project.value[0])
    else
      match group.quest
      case None => Failure(QuestMissing(uv))
      case Some(quests) =>
        if |quests| == 0 then Failure(QuestEmpty(uv)) else Success(quests[0])
  }

  /** The module test: names equal after case folding. */
  predicate ModuleMatches(key: string, uvName: string) {
    Text.Lower(key) == Text.Lower(uvName)
  }

  /** The project test: the folded query occurs in the folded activity name. */
  predicate ProjectMatches(activity: Activity, project: string) {
    Text.Contains(Text.Lower(activity.name), Text.Lower(project))
  }

  /** The module test compares character by character: same length, and
      each pair of characters equal after folding. */
  lemma ModuleMatchesCharwise(key: string, uvName: string)
    ensures ModuleMatches(key, uvName) <==>
      |key| == |uvName| &&
      forall i :: 0 <= i < |key| ==> Text.LowerChar(key[i]) == Text.LowerChar(uvName[i])
  {
    if |key| == |uvName| && forall i :: 0 <= i < |key| ==> Text.LowerChar(key[i]) == Text.LowerChar(uvName[i]) {
      assert Text.Lower(key) == Text.Lower(uvName);
    }
  }

  /** The project test holds exactly when some window of the folded name
      equals the folded query; an empty query matches every name. */
  lemma ProjectMatchesWindow(activity: Activity, project: string)
    ensures ProjectMatches(activity, project) <==>
      exists k :: Text.MatchesAt(Text.Lower(project), Text.Lower(activity.name), k)
    ensures project == "" ==> ProjectMatches(activity, project)
  {
    if project == "" {
      assert Text.MatchesAt(Text.Lower(project), Text.Lower(activity.name), 0);
    }
  }

  /** The entry answers the query: its module matches and its candidate
      passes the project test. */
  predicate Hit(entry: (string, Group), uvName: string, project: string) {
    && ModuleMatches(entry.0, uvName)
    && Candidate(entry.0, entry.1).Success?
    && ProjectMatches(Candidate(entry.0, entry.1).value, project)
  }

  /** The scan ends at this entry: either it answers the query, or its
      module matches and choosing a candidate raises. */
  predicate Stops(entry: (string, Group), uvName: string, project: string) {
    Hit(entry, uvName, project) ||
    (ModuleMatches(entry.0, uvName) && Candidate(entry.0, entry.1).Failure?)
  }

  /** The outcome of the scan when it ends at `entry`. */
  function Verdict(entry: (string, Group)): (r: Result<(int, int), ResolveError>)
    ensures r != Failure(NotFound)
  {
    match Candidate(entry.0, entry.1)
    case Success(a) => Success((a.moduleId, a.activityId))
    case Failure(e) => Failure(e)
  }

  /** No entry before index `i` ends the scan. */
  predicate NoStopBefore(directory: Directory, uvName: string, project: string, i: int)
    requires 0 <= i <= |directory|
  {
    forall j :: 0 <= j < i ==> !Stops(directory[j], uvName, project)
  }

  /** The scan of `activities.items()`: the first entry that answers the
      query, or whose candidate cannot be chosen, decides the outcome;
      NotFound only after every entry has been passed over. Its properties
      are the lemmas that follow. */
  function FindTargetedActivityDetails(directory: Directory, uvName: string, project: string)
    : (r: Result<(int, int), ResolveError>)
    ensures r.Failure? && r.error != NotFound ==> ModuleMatches(r.error.uv, uvName)
    decreases |directory|
  {
    if |directory| == 0 then
      Failure(NotFound)
    else if Stops(directory[0], uvName, project) then
      Verdict(directory[0])
    else
      FindTargetedActivityDetails(directory[1..], uvName, project)
  }

  /** Soundness. A success is the identifiers of an entry that answers the
      query, with no earlier entry ending the scan; an error other than
      NotFound is the candidate error of a matching module, likewise
      reached first. */
  lemma {:induction false} ResultSound(directory: Directory, uvName: string, project: string)
    ensures var r := FindTargetedActivityDetails(directory, uvName, project);
      r.Success? ==> exists i ::
        && 0 <= i < |directory|
        && Hit(directory[i], uvName, project)
        && NoStopBefore(directory, uvName, project, i)
        && r.value == (Candidate(directory[i].0, directory[i].1).value.moduleId,
                       Candidate(directory[i].0, directory[i].1).value.activityId)
    ensures var r := FindTargetedActivityDetails(directory, uvName, project);
      r.Failure? && r.error != NotFound ==> exists i ::
        && 0 <= i < |directory|
        && ModuleMatches(directory[i].0, uvName)
        && NoStopBefore(directory, uvName, project, i)
        && Candidate(directory[i].0, directory[i].1) == Failure(r.error)
    decreases |directory|
  {
    if |directory| > 0 && !Stops(directory[0], uvName, project) {
      var rest := directory[1..];
      ResultSound(rest, uvName, project);
      assert forall i :: 1 <= i <= |directory| ==>
        (NoStopBefore(directory, uvName, project, i) <==> NoStopBefore(rest, uvName, project, i - 1));
      assert forall i :: 0 <= i < |rest| ==> rest[i] == directory[i + 1];
    }
  }

  /** The first entry that ends the scan decides its outcome. */
  lemma {:induction false} FirstStopDecides(directory: Directory, uvName: string, project: string, i: int)
    requires 0 <= i < |directory|
    requires Stops(directory[i], uvName, project)
    requires NoStopBefore(directory, uvName, project, i)
    ensures FindTargetedActivityDetails(directory, uvName, project) == Verdict(directory[i])
    decreases i
  {
    if i > 0 {
      assert !Stops(directory[0], uvName, project);
      var rest := directory[1..];
      assert rest[i - 1] == directory[i];
      assert NoStopBefore(rest, uvName, project, i - 1) by {
        forall j | 0 <= j < i - 1
          ensures !Stops(rest[j], uvName, project)
        {
          assert rest[j] == directory[j + 1];
        }
      }
      FirstStopDecides(rest, uvName, project, i - 1);
    }
  }

  /** NotFound is raised exactly when no entry ends the scan. */
  lemma {:induction false} NotFoundIffNoStop(directory: Directory, uvName: string, project: string)
    ensures FindTargetedActivityDetails(directory, uvName, project) == Failure(NotFound)
            <==> NoStopBefore(directory, uvName, project, |directory|)
    decreases |directory|
  {
    if |directory| > 0 {
      var rest := directory[1..];
      NotFoundIffNoStop(rest, uvName, project);
      assert NoStopBefore(directory, uvName, project, |directory|) <==>
             !Stops(directory[0], uvName, project) && NoStopBefore(rest, uvName, project, |rest|) by {
        assert forall j :: 0 <= j < |rest| ==> rest[j] == directory[j + 1];
      }
    }
  }

  /** First match wins, stated compositionally: scanning `front + back`
      gives what `front` gives unless `front` runs out with NotFound. */
  lemma {:induction false} ScanConcat(front: Directory, back: Directory, uvName: string, project: string)
    ensures FindTargetedActivityDetails(front + back, uvName, project) ==
      (if FindTargetedActivityDetails(front, uvName, project) == Failure(NotFound)
       then FindTargetedActivityDetails(back, uvName, project)
       else FindTargetedActivityDetails(front, uvName, project))
    decreases |front|
  {
    if |front| == 0 {
      assert front + back == back;
    } else {
      assert (front + back)[0] == front[0];
      assert (front + back)[1..] == front[1..] + back;
      ScanConcat(front[1..], back, uvName, project);
    }
  }

  /** An optional list cut down to its first element. */
  function Front(activities: Option<seq<Activity>>): (front: Option<seq<Activity>>) {
    match activities
    case None => None
    case Some(xs) => Some(if |xs| == 0 then [] else [xs[0]])
  }

  /** A group with every list cut down to its first element. */
  function Trimmed(group: Group): (trimmed: Group) {
    Group(Front(group.project), Front(group.quest))
  }

  /** The directory with every list cut down to its first element. */
  function TrimAll(directory: Directory): (t: Directory)
    ensures |t| == |directory|
  {
    seq(|directory|, i requires 0 <= i < |directory| => (directory[i].0, Trimmed(directory[i].1)))
  }

  lemma CandidateOfTrimmed(uv: string, group: Group)
    ensures Candidate(uv, Trimmed(group)) == Candidate(uv, group)
  {
  }

  /** No element at index 1 or later of a "project" or "quest" list is ever
      inspected: cutting every list down to its first element does not
      change the result. */
  lemma {:induction false} OnlyFrontsInspected(directory: Directory, uvName: string, project: string)
    ensures FindTargetedActivityDetails(TrimAll(directory), uvName, project) ==
            FindTargetedActivityDetails(directory, uvName, project)
    decreases |directory|
  {
    if |directory| > 0 {
      var t := TrimAll(directory);
      assert t[0] == (directory[0].0, Trimmed(directory[0].1));
      CandidateOfTrimmed(directory[0].0, directory[0].1);
      assert t[1..] == TrimAll(directory[1..]);
      OnlyFrontsInspected(directory[1..], uvName, project);
    }
  }

  /** Both query strings are used only case-folded: folding them first
      changes nothing. */
  lemma {:induction false} QueryCaseInsensitive(directory: Directory, uvName: string, project: string)
    ensures FindTargetedActivityDetails(directory, uvName, project) ==
            FindTargetedActivityDetails(directory, Text.Lower(uvName), Text.Lower(project))
    decreases |directory|
  {
    if |directory| > 0 {
      StopsCaseInsensitive(directory[0], uvName, project);
      QueryCaseInsensitive(directory[1..], uvName, project);
    }
  }

  lemma StopsCaseInsensitive(entry: (string, Group), uvName: string, project: string)
    ensures Stops(entry, uvName, project) == Stops(entry, Text.Lower(uvName), Text.Lower(project))
  {
    Text.LowerIdempotent(uvName);
    Text.LowerIdempotent(project);
  }

  /** A directory in which no module name matches gives NotFound. */
  lemma {:induction false} NoModuleNotFound(directory: Directory, uvName: string, project: string)
    requires forall i :: 0 <= i < |directory| ==> !ModuleMatches(directory[i].0, uvName)
    ensures FindTargetedActivityDetails(directory, uvName, project) == Failure(NotFound)
  {
    NotFoundIffNoStop(directory, uvName, project);
  }

  /** Case folding on both sides: the query "tic-sec5"/"flysafe" finds
      "FlySafe" under the key "TIC-SEC5". */
  lemma FlySafeScenario()
    ensures FindTargetedActivityDetails(
              [("TIC-SEC5", Group(Some([Activity("FlySafe", 1, 2)]), None))],
              "tic-sec5", "flysafe") == Success((1, 2))
  {
    assert Text.Lower("TIC-SEC5") == Text.Lower("tic-sec5") == "tic-sec5";
    assert Text.Lower("FlySafe") == "flysafe";
    assert Text.MatchesAt("flysafe", "flysafe", 0);
  }

  /** A module whose "project" list is empty falls back to its first quest;
      the second quest is never compared, even when it alone would match. */
  lemma QuestFallbackScenario()
    ensures FindTargetedActivityDetails(
              [("Math", Group(Some([]), Some([Activity("Intro", 3, 4), Activity("Proofs", 3, 5)])))],
              "MATH", "intro") == Success((3, 4))
    ensures FindTargetedActivityDetails(
              [("Math", Group(Some([]), Some([Activity("Intro", 3, 4), Activity("Proofs", 3, 5)])))],
              "MATH", "proofs") == Failure(NotFound)
  {
    assert Text.Lower("Math") == Text.Lower("MATH") == "math";
    assert Text.Lower("Intro") == Text.Lower("intro") == "intro";
    assert Text.MatchesAt("intro", "intro", 0);
    assert Text.Lower("proofs") == "proofs";
    assert !Text.Contains("intro", "proofs");
  }

  /** A matching module whose candidate fails the project test does not end
      the scan: a later entry with the same folded name is still tried. */
  lemma KeepScanningScenario()
    ensures FindTargetedActivityDetails(
              [("tic", Group(Some([Activity("Web", 1, 1)]), None)),
               ("TIC", Group(Some([Activity("Network", 5, 6)]), None))],
              "tic", "network") == Success((5, 6))
  {
    assert Text.Lower("tic") == Text.Lower("TIC") == "tic";
    assert Text.Lower("Web") == "web";
    assert Text.Lower("Network") == Text.Lower("network") == "network";
    assert !Text.Contains("web", "network");
    assert Text.MatchesAt("network", "network", 0);
  }

  /** A matching module with neither a truthy "project" nor a usable "quest"
      ends the scan with an error instead of being skipped, even when a later
      entry would answer the query. */
  lemma CrashScenario()
    ensures FindTargetedActivityDetails(
              [("TIC", Group(None, None)),
               ("tic", Group(Some([Activity("Net", 5, 6)]), None))],
              "tic", "net") == Failure(QuestMissing("TIC"))
    ensures FindTargetedActivityDetails(
              [("TIC", Group(Some([]), Some([]))),
               ("tic", Group(Some([Activity("Net", 5, 6)]), None))],
              "tic", "net") == Failure(QuestEmpty("TIC"))
  {
    assert Text.Lower("tic") == Text.Lower("TIC") == "tic";
  }

  /** The general form of the crash: once the scan reaches a matching module
      without a candidate, what follows it does not matter. */
  lemma CandidatelessModuleStops(front: Directory, key: string, group: Group, back: Directory,
                                 uvName: string, project: string)
    requires FindTargetedActivityDetails(front, uvName, project) == Failure(NotFound)
    requires ModuleMatches(key, uvName)
    requires !Truthy(group.project) && !Truthy(group.quest)
    ensures FindTargetedActivityDetails(front + [(key, group)] + back, uvName, project) ==
            (if group.quest.None? then Failure(QuestMissing(key)) else Failure(QuestEmpty(key)))
  {
    var rest := [(key, group)] + back;
    assert rest[0] == (key, group);
    assert Candidate(key, group).Failure?;
    assert Stops(rest[0], uvName, project);
    assert FindTargetedActivityDetails(rest, uvName, project) == Verdict((key, group));
    ScanConcat(front, rest, uvName, project);
    assert front + [(key, group)] + back == front + rest;
  }
}
