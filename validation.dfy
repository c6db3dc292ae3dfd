/** Record validation (`validateTask`): every field is checked on its own,
    each failure appends one fixed message, and the record is valid exactly
    when no check failed. */
module Validation {
  import opened Options
  import opened Tasks

  const NameRequired: string := "Task name is required"
  const NameTooLong: string := "Task name must be less than 100 characters"
  const DescriptionTooLong: string := "Task description must be less than 1000 characters"
  const InvalidStatus: string := "Invalid task status"
  const UsersNotArray: string := "Users must be an array"
  const TagsNotArray: string := "Tags must be an array"
  const DependenciesNotArray: string := "Dependencies must be an array"

  /** The seven messages, in the order the checks run. */
  const Messages: seq<string> :=
    [NameRequired, NameTooLong, DescriptionTooLong, InvalidStatus,
     UsersNotArray, TagsNotArray, DependenciesNotArray]

  /** The characters `String.prototype.trim` removes: the ECMAScript
      WhiteSpace and LineTerminator code points. */
  predicate IsJsSpace(c: char) {
    var u := c as int;
    u == 0x09 || u == 0x0A || u == 0x0B || u == 0x0C || u == 0x0D || u == 0x20 ||
    u == 0xA0 || u == 0x1680 || (0x2000 <= u <= 0x200A) || u == 0x2028 || u == 0x2029 ||
    u == 0x202F || u == 0x205F || u == 0x3000 || u == 0xFEFF
  }

  /** Leading white space removed. */
  function TrimStart(s: string): (r: string)
    ensures |r| <= |s| && r == s[|s| - |r|..]
    ensures r == [] || !IsJsSpace(r[0])
    ensures forall i :: 0 <= i < |s| - |r| ==> IsJsSpace(s[i])
  {
    if s != [] && IsJsSpace(s[0]) then
      var r := TrimStart(s[1..]);
      assert forall i :: 1 <= i < |s| - |r| ==> s[i] == s[1..][i - 1];
      r
    else s
  }

  /** Trailing white space removed. */
  function TrimEnd(s: string): (r: string)
    ensures |r| <= |s| && r == s[..|r|]
    ensures r == [] || !IsJsSpace(r[|r| - 1])
    ensures forall i :: |r| <= i < |s| ==> IsJsSpace(s[i])
    decreases |s|
  {
    if s != [] && IsJsSpace(s[|s| - 1]) then
      var r := TrimEnd(s[..|s| - 1]);
      assert forall i :: |r| <= i < |s| - 1 ==> s[i] == s[..|s| - 1][i];
      r
    else s
  }

  /** `r` is `s` with white space cut off both ends: the slice of `s`
      from `k`, everything before and after it white space. */
  ghost predicate TrimmedAt(s: string, r: string, k: int) {
    0 <= k && k + |r| <= |s| && (forall i :: 0 <= i < |r| ==> r[i] == s[k + i]) &&
    (forall i :: 0 <= i < k ==> IsJsSpace(s[i])) &&
    (forall i :: k + |r| <= i < |s| ==> IsJsSpace(s[i]))
  }

  /** `s.trim()`: a slice of `s` that neither starts nor ends with white
      space, everything cut off being white space. */
  function Trim(s: string): (r: string)
    ensures r == [] || (!IsJsSpace(r[0]) && !IsJsSpace(r[|r| - 1]))
    ensures TrimmedAt(s, r, |s| - |TrimStart(s)|)
  {
    var t := TrimStart(s);
    var r := TrimEnd(t);
    TrimBothEnds(s, t, r);
    r
  }

  /** Cutting white space off the start (`t`) and then off the end (`r`)
      leaves a slice of `s` at `|s| - |t|` that starts and ends with no
      white space. */
  lemma TrimBothEnds(s: string, t: string, r: string)
    requires |t| <= |s| && t == s[|s| - |t|..] && (t == [] || !IsJsSpace(t[0]))
    requires forall i :: 0 <= i < |s| - |t| ==> IsJsSpace(s[i])
    requires |r| <= |t| && r == t[..|r|] && (r == [] || !IsJsSpace(r[|r| - 1]))
    requires forall i :: |r| <= i < |t| ==> IsJsSpace(t[i])
    ensures r == [] || (!IsJsSpace(r[0]) && !IsJsSpace(r[|r| - 1]))
    ensures TrimmedAt(s, r, |s| - |t|)
  {
    SliceOfSuffix(s, t, r, IsJsSpace);
  }

  /** A prefix `r` of a suffix `t` of `s` sits at `|s| - |t|` in `s`; when
      what `t` leaves off `s` and what `r` leaves off `t` are all `white`,
      so is everything of `s` outside `r`. */
  lemma SliceOfSuffix<T>(s: seq<T>, t: seq<T>, r: seq<T>, white: T -> bool)
    requires |t| <= |s| && t == s[|s| - |t|..] && |r| <= |t| && r == t[..|r|]
    requires forall i :: 0 <= i < |s| - |t| ==> white(s[i])
    requires forall i :: |r| <= i < |t| ==> white(t[i])
    ensures forall i :: 0 <= i < |r| ==> r[i] == s[|s| - |t| + i]
    ensures forall i :: |s| - |t| + |r| <= i < |s| ==> white(s[i])
    ensures r != [] ==> r[0] == t[0]
  {
    forall i | |s| - |t| + |r| <= i < |s| ensures white(s[i]) {
      assert s[i] == t[i - (|s| - |t|)];
    }
  }

  /** A string trims to nothing exactly when all of its characters are
      white space. */
  lemma TrimEmptyIffBlank(s: string)
    ensures Trim(s) == [] <==> forall i :: 0 <= i < |s| ==> IsJsSpace(s[i])
  {
    var r := Trim(s);
    var k := |s| - |TrimStart(s)|;
    if r != [] {
      assert s[k] == r[0];
    }
  }


  /** `!task.name || task.name.trim() === ''`: a missing name is the empty
      string. */
  predicate NameBlank(task: Task) {
    task.name == [] || Trim(task.name) == []
  }

  /** Whether check number `k` (an index into `Messages`) fails. Lengths
      are counted in characters. */
  predicate Fails(task: Task, k: int) {
    if k == 0 then NameBlank(task)
    else if k == 1 then |task.name| > 100
    else if k == 2 then |task.description| > 1000
    else if k == 3 then !IsStatus(task.status)
    else if k == 4 then task.users.None?
    else if k == 5 then task.tags.None?
    else if k == 6 then task.dependsOn.None?
    else false
  }

  /** The messages of the failed checks among the first `k`, in check
      order: what the error list holds after `k` checks have run. */
  function Expected(task: Task, k: nat): (r: seq<string>)
    requires k <= |Messages|
  {
    if k == 0 then []
    else Expected(task, k - 1) + (if Fails(task, k - 1) then [Messages[k - 1]] else [])
  }

  /** After `k` checks, the list holds the message of every failed one and
      of no other check, each once, in check order. */
  lemma ExpectedFacts(task: Task, k: nat)
    requires k <= |Messages|
    ensures forall j :: 0 <= j < |Messages| ==> (Messages[j] in Expected(task, k) <==> j < k && Fails(task, j))
    ensures forall m :: m in Expected(task, k) ==> m in Messages && Rank(m) < k
    ensures forall i, j :: 0 <= i < j < |Expected(task, k)| ==> Rank(Expected(task, k)[i]) < Rank(Expected(task, k)[j])
  {
    ExpectedRanks(task, k);
    ExpectedMembers(task, k);
    ExpectedOrdered(task, k);
  }

  lemma {:induction false} ExpectedRanks(task: Task, k: nat)
    requires k <= |Messages|
    ensures forall m :: m in Expected(task, k) ==> m in Messages && Rank(m) < k
  {
    if k > 0 {
      ExpectedRanks(task, k - 1);
      MessagesDistinct();
      assert Rank(Messages[k - 1]) == k - 1;
    }
  }

  lemma ExpectedMembers(task: Task, k: nat)
    requires k <= |Messages|
    ensures forall j :: 0 <= j < |Messages| ==> (Messages[j] in Expected(task, k) <==> j < k && Fails(task, j))
  {
    forall j | 0 <= j < |Messages|
      ensures Messages[j] in Expected(task, k) <==> j < k && Fails(task, j)
    {
      ExpectedMember(task, k, j);
    }
  }

  lemma {:induction false} ExpectedMember(task: Task, k: nat, j: nat)
    requires k <= |Messages| && j < |Messages|
    ensures Messages[j] in Expected(task, k) <==> j < k && Fails(task, j)
  {
    if k > 0 {
      ExpectedMember(task, k - 1, j);
      ExpectedMemberStep(task, k, j);
    }
  }

  /** One more check adds its own message, if it fails, and no other. */
  lemma ExpectedMemberStep(task: Task, k: nat, j: nat)
    requires 0 < k <= |Messages| && j < |Messages|
    requires Messages[j] in Expected(task, k - 1) <==> j < k - 1 && Fails(task, j)
    ensures Messages[j] in Expected(task, k) <==> j < k && Fails(task, j)
  {
    var tail := if Fails(task, k - 1) then [Messages[k - 1]] else [];
    assert Expected(task, k) == Expected(task, k - 1) + tail;
    if Messages[j] in tail {
      MessagesUnique(j, k - 1);
    }
  }

  /** No message stands for two checks. */
  lemma MessagesUnique(i: nat, j: nat)
    requires i < |Messages| && j < |Messages| && Messages[i] == Messages[j]
    ensures i == j
  {
    MessagesDistinct();
  }

  lemma {:induction false} ExpectedOrdered(task: Task, k: nat)
    requires k <= |Messages|
    ensures forall i, j :: 0 <= i < j < |Expected(task, k)| ==> Rank(Expected(task, k)[i]) < Rank(Expected(task, k)[j])
  {
    if k > 0 {
      ExpectedOrdered(task, k - 1);
      ExpectedRanks(task, k - 1);
      forall i, j | 0 <= i < j < |Expected(task, k)|
        ensures Rank(Expected(task, k)[i]) < Rank(Expected(task, k)[j])
      {
        ExpectedOrderedStep(task, k, i, j);
      }
    }
  }

  /** The message a failing check adds ranks above every earlier one. */
  lemma ExpectedOrderedStep(task: Task, k: nat, i: nat, j: nat)
    requires 0 < k <= |Messages| && i < j < |Expected(task, k)|
    requires forall m :: m in Expected(task, k - 1) ==> Rank(m) < k - 1
    requires j < |Expected(task, k - 1)| ==> Rank(Expected(task, k - 1)[i]) < Rank(Expected(task, k - 1)[j])
    ensures Rank(Expected(task, k)[i]) < Rank(Expected(task, k)[j])
  {
    var e := Expected(task, k - 1);
    var tail := if Fails(task, k - 1) then [Messages[k - 1]] else [];
    assert Expected(task, k) == e + tail;
    if j >= |e| {
      MessagesDistinct();
      assert Expected(task, k)[j] == Messages[k - 1];
      assert Expected(task, k)[i] == e[i] && e[i] in e;
    } else {
      assert Expected(task, k)[i] == e[i] && Expected(task, k)[j] == e[j];
    }
  }

  /** The error list of `validateTask` holds the message of every failed
      check and of no other, each once, in the order of `Messages`. */
  lemma ValidationErrors(task: Task)
    ensures forall k :: 0 <= k < |Messages| ==> (Messages[k] in Expected(task, |Messages|) <==> Fails(task, k))
    ensures forall m :: m in Expected(task, |Messages|) ==> m in Messages
    ensures forall i, j :: 0 <= i < j < |Expected(task, |Messages|)| ==>
      Rank(Expected(task, |Messages|)[i]) < Rank(Expected(task, |Messages|)[j])
  {
    ExpectedFacts(task, |Messages|);
  }

  lemma MessagesDistinct()
    ensures forall j :: 0 <= j < |Messages| ==> Rank(Messages[j]) == j
  {
  }

  /** `validateTask`: the checks run in the order of `Messages`, each
      failure appending its message (`ValidationErrors` states what the
      resulting list holds). */
  method ValidateTask(task: Task) returns (isValid: bool, errors: seq<string>)
    ensures errors == Expected(task, |Messages|)
    ensures isValid <==> errors == []
  {
    errors := [];
    if task.name == [] || Trim(task.name) == [] {
      errors := errors + [NameRequired];
    }
    assert errors == Expected(task, 1);
    if task.name != [] && |task.name| > 100 {
      errors := errors + [NameTooLong];
    }
    assert errors == Expected(task, 2);
    if task.description != [] && |task.description| > 1000 {
      errors := errors + [DescriptionTooLong];
    }
    assert errors == Expected(task, 3);
    if !(task.status in StatusValues) {
      errors := errors + [InvalidStatus];
    }
    assert errors == Expected(task, 4);
    if task.users.None? {
      errors := errors + [UsersNotArray];
    }
    assert errors == Expected(task, 5);
    if task.tags.None? {
      errors := errors + [TagsNotArray];
    }
    assert errors == Expected(task, 6);
    if task.dependsOn.None? {
      errors := errors + [DependenciesNotArray];
    }
    assert errors == Expected(task, 7);
    isValid := |errors| == 0;
  }

  /** The position of a message in `Messages` (7 for any other string). */
  function Rank(m: string): (k: nat)
    ensures k <= |Messages|
    ensures k < |Messages| ==> Messages[k] == m
    ensures m in Messages ==> k < |Messages|
  {
    if m == NameRequired then 0
    else if m == NameTooLong then 1
    else if m == DescriptionTooLong then 2
    else if m == InvalidStatus then 3
    else if m == UsersNotArray then 4
    else if m == TagsNotArray then 5
    else if m == DependenciesNotArray then 6
    else 7
  }

  /** A white-space-only name longer than 100 characters draws both name
      errors: the checks are independent, so one record can collect
      several. */
  lemma LongBlankNameFailsTwice(task: Task)
    requires |task.name| > 100 && forall i :: 0 <= i < |task.name| ==> IsJsSpace(task.name[i])
    ensures Fails(task, 0) && Fails(task, 1)
  {
    TrimEmptyIffBlank(task.name);
  }

  /** A record is valid exactly when it passes every check. */
  lemma ValidIffAllChecksPass(task: Task)
    ensures Expected(task, |Messages|) == [] <==>
      !NameBlank(task) && |task.name| <= 100 && |task.description| <= 1000 && IsStatus(task.status) &&
      task.users.Some? && task.tags.Some? && task.dependsOn.Some?
  {
    NoErrorsIff(task, |Messages|);
    AllChecksPass(task);
  }

  /** "No check fails" spelled out check by check. */
  lemma AllChecksPass(task: Task)
    ensures (forall j :: 0 <= j < |Messages| ==> !Fails(task, j)) <==>
      !Fails(task, 0) && !Fails(task, 1) && !Fails(task, 2) && !Fails(task, 3) &&
      !Fails(task, 4) && !Fails(task, 5) && !Fails(task, 6)
  {
    if !Fails(task, 0) && !Fails(task, 1) && !Fails(task, 2) && !Fails(task, 3) &&
      !Fails(task, 4) && !Fails(task, 5) && !Fails(task, 6)
    {
      forall j | 0 <= j < |Messages| ensures !Fails(task, j) {
        assert j == 0 || j == 1 || j == 2 || j == 3 || j == 4 || j == 5 || j == 6;
      }
    }
  }

  /** No message after `k` checks exactly when none of them failed. */
  lemma {:induction false} NoErrorsIff(task: Task, k: nat)
    requires k <= |Messages|
    ensures Expected(task, k) == [] <==> forall j :: 0 <= j < k ==> !Fails(task, j)
  {
    if k > 0 {
      NoErrorsIff(task, k - 1);
    }
  }

  /** A record with a name holding some non-white-space character and at
      most 100 characters, a description of at most 1000, a status code
      0..4 and all three lists present is valid. */
  lemma WellFormedPasses(task: Task)
    requires exists i :: 0 <= i < |task.name| && !IsJsSpace(task.name[i])
    requires |task.name| <= 100 && |task.description| <= 1000 && 0 <= task.status <= 4
    requires task.users.Some? && task.tags.Some? && task.dependsOn.Some?
    ensures Expected(task, |Messages|) == []
  {
    TrimEmptyIffBlank(task.name);
    StatusValuesAreZeroToFour(task.status);
    ValidIffAllChecksPass(task);
  }
}
