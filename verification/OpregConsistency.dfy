/**
 The rules that span fields of the operator roster: issues added one by one to a
 refinement context while the document is walked.
 */
module OpregConsistency {

  datatype OperatorType = Producer | Batch | Underwriter
  datatype Operator = Operator(accountName: string, kind: OperatorType)
  datatype Document = Document(operators: seq<Operator>, activeGroupIndex: nat, groups: seq<seq<string>>)

  datatype Issue =
    | DuplicateAccount(name: string, index: nat)
    | ActiveGroupOutOfRange(index: nat, groups: nat)
    | RepeatedMember(member: string, group: nat, index: nat)
    | NotABatchOperator(member: string, group: nat, index: nat)

  class RefinementContext {
    var issues: seq<Issue>

    constructor ()
      ensures issues == []
    {
      issues := [];
    }

    method AddIssue(issue: Issue)
      modifies this
      ensures issues == old(issues) + [issue]
    {
      issues := issues + [issue];
    }
  }

  function Names(operators: seq<Operator>): (names: seq<string>)
    ensures |names| == |operators|
    ensures forall i :: 0 <= i < |names| ==> names[i] == operators[i].accountName
  {
    seq(|operators|, i requires 0 <= i < |operators| => operators[i].accountName)
  }

  /** The position of the first `value`, or the length when there is none. */
  function FirstIndex(values: seq<string>, value: string): nat {
    if values == [] || values[0] == value then 0 else 1 + FirstIndex(values[1..], value)
  }

  lemma {:induction false} FirstIndexIsFirst(values: seq<string>, value: string)
    ensures FirstIndex(values, value) <= |values|
    ensures FirstIndex(values, value) < |values| ==> values[FirstIndex(values, value)] == value
    ensures forall i :: 0 <= i < FirstIndex(values, value) ==> values[i] != value
  {
    if values == [] || values[0] == value {
      return;
    }
    FirstIndexIsFirst(values[1..], value);
    assert forall i :: 0 < i < |values| ==> values[i] == values[1..][i - 1];
  }

  // ----- the issues of each check

  /** Whether the name at `at` has occurred before it. */
  predicate Repeats(operators: seq<Operator>, at: nat)
    requires at < |operators|
  {
    FirstIndex(Names(operators), operators[at].accountName) != at
  }

  function DuplicateIssues(operators: seq<Operator>, upTo: nat): seq<Issue>
    requires upTo <= |operators|
  {
    if upTo == 0 then []
    else if Repeats(operators, upTo - 1)
    then DuplicateIssues(operators, upTo - 1) + [DuplicateAccount(operators[upTo - 1].accountName, upTo - 1)]
    else DuplicateIssues(operators, upTo - 1)
  }

  function ActiveGroupIssues(document: Document): seq<Issue> {
    if document.activeGroupIndex >= |document.groups|
    then [ActiveGroupOutOfRange(document.activeGroupIndex, |document.groups|)] else []
  }

  /** The roster as a map; a later entry of a name replaces an earlier one. */
  function TypeByAccount(operators: seq<Operator>): map<string, OperatorType> {
    if operators == [] then map[]
    else
      var last := operators[|operators| - 1];
      TypeByAccount(operators[..|operators| - 1])[last.accountName := last.kind]
  }

  predicate IsBatch(types: map<string, OperatorType>, member: string) {
    member in types && types[member] == Batch
  }

  /** The issues of the group member at `index`. */
  function MemberIssue(types: map<string, OperatorType>, group: seq<string>, g: nat, index: nat): seq<Issue>
    requires index < |group|
  {
    (if FirstIndex(group, group[index]) != index then [RepeatedMember(group[index], g, index)] else [])
    + (if !IsBatch(types, group[index]) then [NotABatchOperator(group[index], g, index)] else [])
  }

  function MemberIssues(types: map<string, OperatorType>, group: seq<string>, g: nat, upTo: nat): seq<Issue>
    requires upTo <= |group|
  {
    if upTo == 0 then []
    else MemberIssues(types, group, g, upTo - 1) + MemberIssue(types, group, g, upTo - 1)
  }

  function GroupIssues(types: map<string, OperatorType>, groups: seq<seq<string>>, upTo: nat): seq<Issue>
    requires upTo <= |groups|
  {
    if upTo == 0 then []
    else GroupIssues(types, groups, upTo - 1) + MemberIssues(types, groups[upTo - 1], upTo - 1, |groups[upTo - 1]|)
  }

  function ConsistencyIssues(document: Document): seq<Issue> {
    DuplicateIssues(document.operators, |document.operators|)
    + ActiveGroupIssues(document)
    + GroupIssues(TypeByAccount(document.operators), document.groups, |document.groups|)
  }

  // ----- the checks as they run

  method AddDuplicateAccountIssues(document: Document, ctx: RefinementContext)
    modifies ctx
    ensures ctx.issues == old(ctx.issues) + DuplicateIssues(document.operators, |document.operators|)
  {
    var operators := document.operators;
    for index := 0 to |operators|
      invariant ctx.issues == old(ctx.issues) + DuplicateIssues(operators, index)
    {
      if Repeats(operators, index) {
        ctx.AddIssue(DuplicateAccount(operators[index].accountName, index));
      }
    }
  }

  method AddActiveGroupIssue(document: Document, ctx: RefinementContext)
    modifies ctx
    ensures ctx.issues == old(ctx.issues) + ActiveGroupIssues(document)
  {
    if document.activeGroupIndex >= |document.groups| {
      ctx.AddIssue(ActiveGroupOutOfRange(document.activeGroupIndex, |document.groups|));
    }
  }

  method AddMemberIssue(
    types: map<string, OperatorType>, group: seq<string>, g: nat, index: nat, ctx: RefinementContext)
    requires index < |group|
    modifies ctx
    ensures ctx.issues == old(ctx.issues) + MemberIssue(types, group, g, index)
  {
    if FirstIndex(group, group[index]) != index {
      ctx.AddIssue(RepeatedMember(group[index], g, index));
    }
    if !IsBatch(types, group[index]) {
      ctx.AddIssue(NotABatchOperator(group[index], g, index));
    }
  }

  method AddMemberIssues(types: map<string, OperatorType>, group: seq<string>, g: nat, ctx: RefinementContext)
    modifies ctx
    ensures ctx.issues == old(ctx.issues) + MemberIssues(types, group, g, |group|)
  {
    for index := 0 to |group|
      invariant ctx.issues == old(ctx.issues) + MemberIssues(types, group, g, index)
    {
      AddMemberIssue(types, group, g, index, ctx);
    }
  }

  method AddGroupMemberIssues(document: Document, ctx: RefinementContext)
    modifies ctx
    ensures ctx.issues == old(ctx.issues)
      + GroupIssues(TypeByAccount(document.operators), document.groups, |document.groups|)
  {
    var operators := document.operators;
    var types: map<string, OperatorType> := map[];
    for i := 0 to |operators|
      invariant types == TypeByAccount(operators[..i])
    {
      assert operators[..i + 1][..i] == operators[..i];
      types := types[operators[i].accountName := operators[i].kind];
    }
    assert operators[..|operators|] == operators;
    for g := 0 to |document.groups|
      invariant ctx.issues == old(ctx.issues) + GroupIssues(types, document.groups, g)
    {
      AddMemberIssues(types, document.groups[g], g, ctx);
    }
  }

  method AddConsistencyIssues(document: Document, ctx: RefinementContext)
    modifies ctx
    ensures ctx.issues == old(ctx.issues) + ConsistencyIssues(document)
  {
    AddDuplicateAccountIssues(document, ctx);
    AddActiveGroupIssue(document, ctx);
    AddGroupMemberIssues(document, ctx);
  }

  // ----- what no issue means

  ghost predicate Distinct(values: seq<string>) {
    forall i, j :: 0 <= i < j < |values| ==> values[i] != values[j]
  }

  ghost predicate BatchAccount(operators: seq<Operator>, name: string) {
    Operator(name, Batch) in operators
  }

  /** The document's intended consistency, without the order in which it is checked. */
  ghost predicate Consistent(document: Document) {
    && Distinct(Names(document.operators))
    && document.activeGroupIndex < |document.groups|
    && forall g :: 0 <= g < |document.groups| ==> GroupConsistent(document.operators, document.groups[g])
  }

  ghost predicate GroupConsistent(operators: seq<Operator>, group: seq<string>) {
    && Distinct(group)
    && forall k :: 0 <= k < |group| ==> BatchAccount(operators, group[k])
  }

  lemma FirstIndexOfDistinct(values: seq<string>)
    ensures Distinct(values) <==> forall i :: 0 <= i < |values| ==> FirstIndex(values, values[i]) == i
  {
    forall i | 0 <= i < |values|
      ensures FirstIndex(values, values[i]) <= i && values[FirstIndex(values, values[i])] == values[i]
    {
      FirstIndexIsFirst(values, values[i]);
    }
    if forall i :: 0 <= i < |values| ==> FirstIndex(values, values[i]) == i {
      forall i, j | 0 <= i < j < |values| ensures values[i] != values[j] {
        assert FirstIndex(values, values[j]) == j;
      }
    }
  }

  lemma {:induction false} NoDuplicateIssues(operators: seq<Operator>, upTo: nat)
    requires upTo <= |operators|
    ensures DuplicateIssues(operators, upTo) == [] <==>
      forall i :: 0 <= i < upTo ==> !Repeats(operators, i)
  {
    if upTo > 0 {
      NoDuplicateIssues(operators, upTo - 1);
    }
  }

  /** A member listed once so far that is a BATCH account. */
  predicate MemberPasses(types: map<string, OperatorType>, group: seq<string>, index: nat)
    requires index < |group|
  {
    FirstIndex(group, group[index]) == index && IsBatch(types, group[index])
  }

  lemma MemberIssueEmpty(types: map<string, OperatorType>, group: seq<string>, g: nat, index: nat)
    requires index < |group|
    ensures MemberIssue(types, group, g, index) == [] <==> MemberPasses(types, group, index)
  {}

  ghost predicate MembersPass(types: map<string, OperatorType>, group: seq<string>, upTo: nat)
    requires upTo <= |group|
  {
    forall k :: 0 <= k < upTo ==> MemberPasses(types, group, k)
  }

  lemma {:induction false} NoMemberIssues(types: map<string, OperatorType>, group: seq<string>, g: nat, upTo: nat)
    requires upTo <= |group|
    ensures MemberIssues(types, group, g, upTo) == [] <==> MembersPass(types, group, upTo)
  {
    if upTo == 0 {
      return;
    }
    var before, last := MemberIssues(types, group, g, upTo - 1), MemberIssue(types, group, g, upTo - 1);
    NoMemberIssues(types, group, g, upTo - 1);
    MemberIssueEmpty(types, group, g, upTo - 1);
    assert MembersPass(types, group, upTo) <==>
      MembersPass(types, group, upTo - 1) && MemberPasses(types, group, upTo - 1);
    assert before + last == [] <==> before == [] && last == [];
  }

  ghost predicate GroupPasses(types: map<string, OperatorType>, group: seq<string>) {
    Distinct(group) && forall k :: 0 <= k < |group| ==> IsBatch(types, group[k])
  }

  lemma GroupPassesMembers(types: map<string, OperatorType>, group: seq<string>)
    ensures GroupPasses(types, group) <==> MembersPass(types, group, |group|)
  {
    FirstIndexOfDistinct(group);
    if MembersPass(types, group, |group|) {
      forall k | 0 <= k < |group| ensures FirstIndex(group, group[k]) == k && IsBatch(types, group[k]) {
        assert MemberPasses(types, group, k);
      }
    }
  }

  ghost predicate Silent(types: map<string, OperatorType>, groups: seq<seq<string>>, g: nat)
    requires g < |groups|
  {
    MemberIssues(types, groups[g], g, |groups[g]|) == []
  }

  lemma SilentGroupPasses(types: map<string, OperatorType>, groups: seq<seq<string>>, g: nat)
    requires g < |groups|
    ensures Silent(types, groups, g) <==> GroupPasses(types, groups[g])
  {
    NoMemberIssues(types, groups[g], g, |groups[g]|);
    GroupPassesMembers(types, groups[g]);
  }

  lemma {:induction false} NoGroupIssues(types: map<string, OperatorType>, groups: seq<seq<string>>, upTo: nat)
    requires upTo <= |groups|
    ensures GroupIssues(types, groups, upTo) == [] <==> forall g: nat :: g < upTo ==> Silent(types, groups, g)
  {
    if upTo == 0 {
      return;
    }
    var before, last := GroupIssues(types, groups, upTo - 1), MemberIssues(types, groups[upTo - 1], upTo - 1, |groups[upTo - 1]|);
    NoGroupIssues(types, groups, upTo - 1);
    assert Silent(types, groups, upTo - 1) <==> last == [];
    assert before + last == [] <==> before == [] && last == [];
  }

  /** The map answers with the last entry of a name. */
  lemma {:induction false} LookupIsLastEntry(operators: seq<Operator>, i: nat)
    requires i < |operators|
    requires forall j :: i < j < |operators| ==> operators[j].accountName != operators[i].accountName
    ensures operators[i].accountName in TypeByAccount(operators)
    ensures TypeByAccount(operators)[operators[i].accountName] == operators[i].kind
  {
    if i < |operators| - 1 {
      LookupIsLastEntry(operators[..|operators| - 1], i);
    }
  }

  lemma {:induction false} LookupFindsEntry(operators: seq<Operator>, name: string) returns (i: nat)
    requires name in TypeByAccount(operators)
    ensures i < |operators| && operators[i] == Operator(name, TypeByAccount(operators)[name])
  {
    var n := |operators| - 1;
    if operators[n].accountName == name {
      i := n;
    } else {
      i := LookupFindsEntry(operators[..n], name);
    }
  }

  lemma DistinctLookup(operators: seq<Operator>, name: string)
    requires Distinct(Names(operators))
    ensures IsBatch(TypeByAccount(operators), name) <==> BatchAccount(operators, name)
  {
    if IsBatch(TypeByAccount(operators), name) {
      var i := LookupFindsEntry(operators, name);
    }
    if BatchAccount(operators, name) {
      var i :| 0 <= i < |operators| && operators[i] == Operator(name, Batch);
      assert forall j :: i < j < |operators| ==> Names(operators)[j] != Names(operators)[i];
      LookupIsLastEntry(operators, i);
    }
  }

  lemma RepeatsByIndex(operators: seq<Operator>, i: nat)
    requires i < |operators|
    ensures Repeats(operators, i) <==> FirstIndex(Names(operators), Names(operators)[i]) != i
  {}

  lemma NoDuplicatesWhenDistinct(operators: seq<Operator>)
    ensures DuplicateIssues(operators, |operators|) == [] <==> Distinct(Names(operators))
  {
    var names := Names(operators);
    NoDuplicateIssues(operators, |operators|);
    FirstIndexOfDistinct(names);
    if Distinct(names) {
      forall i | 0 <= i < |operators| ensures !Repeats(operators, i) {
        RepeatsByIndex(operators, i);
        assert FirstIndex(names, names[i]) == i;
      }
    } else {
      var i :| 0 <= i < |names| && FirstIndex(names, names[i]) != i;
      RepeatsByIndex(operators, i);
    }
  }

  lemma SilentGroupIsConsistent(operators: seq<Operator>, groups: seq<seq<string>>, g: nat)
    requires g < |groups| && Distinct(Names(operators))
    ensures Silent(TypeByAccount(operators), groups, g) <==> GroupConsistent(operators, groups[g])
  {
    SilentGroupPasses(TypeByAccount(operators), groups, g);
    forall k | 0 <= k < |groups[g]|
      ensures IsBatch(TypeByAccount(operators), groups[g][k]) <==> BatchAccount(operators, groups[g][k])
    {
      DistinctLookup(operators, groups[g][k]);
    }
  }

  /**
   The checks report nothing exactly when account names are pairwise distinct, the active index is
   in range and each group is a duplicate-free list of accounts of BATCH operators.
   */
  lemma NoIssueExactlyWhenConsistent(document: Document)
    ensures ConsistencyIssues(document) == [] <==> Consistent(document)
  {
    NoDuplicatesWhenDistinct(document.operators);
    NoGroupIssues(TypeByAccount(document.operators), document.groups, |document.groups|);
    if Distinct(Names(document.operators)) {
      forall g: nat | g < |document.groups|
        ensures Silent(TypeByAccount(document.operators), document.groups, g) <==> GroupConsistent(document.operators, document.groups[g])
      {
        SilentGroupIsConsistent(document.operators, document.groups, g);
      }
    }
  }

  /** The distinct names among the first `upTo` entries. */
  function NamesBefore(operators: seq<Operator>, upTo: nat): set<string>
    requires upTo <= |operators|
  {
    if upTo == 0 then {} else NamesBefore(operators, upTo - 1) + {operators[upTo - 1].accountName}
  }

  lemma {:induction false} NameOccurs(operators: seq<Operator>, upTo: nat, name: string)
    requires upTo <= |operators|
    ensures name in NamesBefore(operators, upTo) <==>
      exists i :: 0 <= i < upTo && operators[i].accountName == name
  {
    if upTo > 0 {
      NameOccurs(operators, upTo - 1, name);
    }
  }

  /** An entry is a duplicate exactly when its name has occurred before it. */
  lemma RepeatsWhenSeen(operators: seq<Operator>, at: nat)
    requires at < |operators|
    ensures Repeats(operators, at) <==> operators[at].accountName in NamesBefore(operators, at)
  {
    var name := operators[at].accountName;
    var first := FirstIndex(Names(operators), name);
    FirstIndexIsFirst(Names(operators), name);
    NameOccurs(operators, at, name);
    assert Names(operators)[at] == name;
    assert first <= at;
  }

  lemma AddedName(names: set<string>, name: string)
    ensures |names + {name}| == |names| + if name in names then 0 else 1
  {
    if name in names {
      assert names + {name} == names;
    }
  }

  /** One duplicate issue for each entry beyond the distinct names. */
  lemma {:induction false} DuplicateIssuesCount(operators: seq<Operator>, upTo: nat)
    requires upTo <= |operators|
    ensures |DuplicateIssues(operators, upTo)| == upTo - |NamesBefore(operators, upTo)|
  {
    if upTo == 0 {
      return;
    }
    DuplicateIssuesCount(operators, upTo - 1);
    RepeatsWhenSeen(operators, upTo - 1);
    AddedName(NamesBefore(operators, upTo - 1), operators[upTo - 1].accountName);
  }

  // ----- which issues, and in which order

  /** A later entry never takes the name over, and this one is a BATCH operator's. */
  ghost predicate LastEntryIsBatch(operators: seq<Operator>, name: string) {
    exists j :: 0 <= j < |operators| && operators[j] == Operator(name, Batch)
      && forall l :: j < l < |operators| ==> operators[l].accountName != name
  }

  ghost predicate OccursBefore(values: seq<string>, at: nat)
    requires at < |values|
  {
    exists j :: 0 <= j < at && values[j] == values[at]
  }

  /** What each issue claims of the document. */
  ghost predicate Applies(document: Document, issue: Issue) {
    match issue
    case DuplicateAccount(name, index) =>
      index < |document.operators| && document.operators[index].accountName == name
      && OccursBefore(Names(document.operators), index)
    case ActiveGroupOutOfRange(index, groups) =>
      index == document.activeGroupIndex && groups == |document.groups| && index >= groups
    case RepeatedMember(member, group, index) =>
      group < |document.groups| && index < |document.groups[group]| && document.groups[group][index] == member
      && OccursBefore(document.groups[group], index)
    case NotABatchOperator(member, group, index) =>
      group < |document.groups| && index < |document.groups[group]| && document.groups[group][index] == member
      && !LastEntryIsBatch(document.operators, member)
  }

  lemma FirstIndexIsLater(values: seq<string>, at: nat)
    requires at < |values|
    ensures FirstIndex(values, values[at]) != at <==> OccursBefore(values, at)
  {
    FirstIndexIsFirst(values, values[at]);
  }

  lemma {:induction false} BatchIsLastEntry(operators: seq<Operator>, name: string)
    ensures IsBatch(TypeByAccount(operators), name) <==> LastEntryIsBatch(operators, name)
  {
    if operators == [] {
      return;
    }
    var n := |operators| - 1;
    if operators[n].accountName == name {
      assert operators[n] == Operator(name, operators[n].kind);
    } else {
      BatchIsLastEntry(operators[..n], name);
      LastEntryExtends(operators, name);
    }
  }

  lemma LastEntryExtends(operators: seq<Operator>, name: string)
    requires operators != [] && operators[|operators| - 1].accountName != name
    ensures LastEntryIsBatch(operators, name) <==> LastEntryIsBatch(operators[..|operators| - 1], name)
  {
    var n := |operators| - 1;
    if LastEntryIsBatch(operators[..n], name) {
      var j :| 0 <= j < n && operators[..n][j] == Operator(name, Batch)
               && forall l :: j < l < n ==> operators[..n][l].accountName != name;
      assert operators[j] == Operator(name, Batch);
      assert forall l :: j < l < n ==> operators[l] == operators[..n][l];
    }
    if LastEntryIsBatch(operators, name) {
      var j :| 0 <= j < |operators| && operators[j] == Operator(name, Batch)
               && forall l :: j < l < |operators| ==> operators[l].accountName != name;
      assert operators[..n][j] == Operator(name, Batch);
    }
  }

  /** The issue is about one of the first `upTo` accounts, under its own name, which occurred before. */
  ghost predicate AboutAccount(operators: seq<Operator>, upTo: nat, issue: Issue) {
    && issue.DuplicateAccount? && issue.index < upTo && issue.index < |operators|
    && operators[issue.index].accountName == issue.name && OccursBefore(Names(operators), issue.index)
  }

  function AccountIssue(operators: seq<Operator>, at: nat): seq<Issue>
    requires at < |operators|
  {
    if Repeats(operators, at) then [DuplicateAccount(operators[at].accountName, at)] else []
  }

  lemma DuplicateIssuesLast(operators: seq<Operator>, upTo: nat)
    requires 0 < upTo <= |operators|
    ensures DuplicateIssues(operators, upTo) == DuplicateIssues(operators, upTo - 1) + AccountIssue(operators, upTo - 1)
  {}

  lemma AccountIssueExactly(operators: seq<Operator>, at: nat, issue: Issue)
    requires at < |operators|
    ensures issue in AccountIssue(operators, at) <==> AboutAccount(operators, at + 1, issue) && issue.index == at
  {
    FirstIndexIsLater(Names(operators), at);
  }

  lemma {:induction false} DuplicateIssuesExactly(operators: seq<Operator>, upTo: nat, issue: Issue)
    requires upTo <= |operators|
    ensures issue in DuplicateIssues(operators, upTo) <==> AboutAccount(operators, upTo, issue)
  {
    if upTo == 0 {
      return;
    }
    DuplicateIssuesLast(operators, upTo);
    DuplicateIssuesExactly(operators, upTo - 1, issue);
    AccountIssueExactly(operators, upTo - 1, issue);
  }

  /** The issue is about this member of this group and says what is wrong with it. */
  ghost predicate AboutMember(types: map<string, OperatorType>, group: seq<string>, g: nat, upTo: nat, issue: Issue) {
    && (issue.RepeatedMember? || issue.NotABatchOperator?)
    && issue.group == g && issue.index < upTo && issue.index < |group| && group[issue.index] == issue.member
    && (if issue.RepeatedMember? then OccursBefore(group, issue.index) else !IsBatch(types, issue.member))
  }

  lemma MemberIssueExactly(types: map<string, OperatorType>, group: seq<string>, g: nat, index: nat, issue: Issue)
    requires index < |group|
    ensures issue in MemberIssue(types, group, g, index)
        <==> AboutMember(types, group, g, index + 1, issue) && issue.index == index
  {
    FirstIndexIsLater(group, index);
  }

  lemma {:induction false} MemberIssuesExactly(types: map<string, OperatorType>, group: seq<string>, g: nat, upTo: nat, issue: Issue)
    requires upTo <= |group|
    ensures issue in MemberIssues(types, group, g, upTo) <==> AboutMember(types, group, g, upTo, issue)
  {
    if upTo == 0 {
      return;
    }
    MemberIssuesExactly(types, group, g, upTo - 1, issue);
    MemberIssueExactly(types, group, g, upTo - 1, issue);
  }

  ghost predicate AboutGroup(types: map<string, OperatorType>, groups: seq<seq<string>>, upTo: nat, issue: Issue)
    requires upTo <= |groups|
  {
    && (issue.RepeatedMember? || issue.NotABatchOperator?) && issue.group < upTo
    && AboutMember(types, groups[issue.group], issue.group, |groups[issue.group]|, issue)
  }

  ghost predicate Listed(types: map<string, OperatorType>, groups: seq<seq<string>>, g: nat, issue: Issue)
    requires g < |groups|
  {
    issue in MemberIssues(types, groups[g], g, |groups[g]|)
  }

  lemma {:induction false} GroupIssuesAreListed(types: map<string, OperatorType>, groups: seq<seq<string>>, upTo: nat, issue: Issue)
    requires upTo <= |groups|
    ensures issue in GroupIssues(types, groups, upTo) <==> exists g: nat :: g < upTo && Listed(types, groups, g, issue)
  {
    if upTo == 0 {
      return;
    }
    GroupIssuesAreListed(types, groups, upTo - 1, issue);
    assert Listed(types, groups, upTo - 1, issue) <==> issue in MemberIssues(types, groups[upTo - 1], upTo - 1, |groups[upTo - 1]|);
    InEither(issue, GroupIssues(types, groups, upTo - 1), MemberIssues(types, groups[upTo - 1], upTo - 1, |groups[upTo - 1]|));
  }

  lemma GroupIssuesExactly(types: map<string, OperatorType>, groups: seq<seq<string>>, upTo: nat, issue: Issue)
    requires upTo <= |groups|
    ensures issue in GroupIssues(types, groups, upTo) <==> AboutGroup(types, groups, upTo, issue)
  {
    GroupIssuesAreListed(types, groups, upTo, issue);
    if g: nat :| g < upTo && Listed(types, groups, g, issue) {
      MemberIssuesExactly(types, groups[g], g, |groups[g]|, issue);
    }
    if AboutGroup(types, groups, upTo, issue) {
      MemberIssuesExactly(types, groups[issue.group], issue.group, |groups[issue.group]|, issue);
      assert Listed(types, groups, issue.group, issue);
    }
  }

  lemma InEither(issue: Issue, early: seq<Issue>, late: seq<Issue>)
    ensures issue in early + late <==> issue in early || issue in late
  {}

  /** An issue is reported exactly when what it says is so. */
  lemma IssueReportedExactly(document: Document, issue: Issue)
    ensures issue in ConsistencyIssues(document) <==> Applies(document, issue)
  {
    DuplicateIssuesExactly(document.operators, |document.operators|, issue);
    GroupIssuesExactly(TypeByAccount(document.operators), document.groups, |document.groups|, issue);
    if issue.NotABatchOperator? {
      BatchIsLastEntry(document.operators, issue.member);
    }
  }

  /** The order of the walk: accounts, then the active index, then group by group and member by member. */
  predicate Precedes(a: Issue, b: Issue) {
    match (a, b)
    case (DuplicateAccount(_, i), DuplicateAccount(_, j)) => i < j
    case (DuplicateAccount(_, _), _) => true
    case (_, DuplicateAccount(_, _)) => false
    case (ActiveGroupOutOfRange(_, _), ActiveGroupOutOfRange(_, _)) => false
    case (ActiveGroupOutOfRange(_, _), _) => true
    case (_, ActiveGroupOutOfRange(_, _)) => false
    case _ =>
      a.group < b.group
      || (a.group == b.group && (a.index < b.index || (a.index == b.index && a.RepeatedMember? && b.NotABatchOperator?)))
  }

  ghost predicate InOrder(issues: seq<Issue>) {
    forall i, j :: 0 <= i < j < |issues| ==> Precedes(issues[i], issues[j])
  }

  lemma AppendInOrder(early: seq<Issue>, late: seq<Issue>)
    requires InOrder(early) && InOrder(late)
    requires forall a, b :: a in early && b in late ==> Precedes(a, b)
    ensures InOrder(early + late)
  {
    var all := early + late;
    forall i, j | 0 <= i < j < |all| ensures Precedes(all[i], all[j]) {
      if i < |early| <= j {
        assert all[i] in early && all[j] in late;
      }
    }
  }

  lemma {:induction false} DuplicateIssuesInOrder(operators: seq<Operator>, upTo: nat)
    requires upTo <= |operators|
    ensures InOrder(DuplicateIssues(operators, upTo))
  {
    if upTo == 0 {
      return;
    }
    DuplicateIssuesInOrder(operators, upTo - 1);
    if Repeats(operators, upTo - 1) {
      forall issue | issue in DuplicateIssues(operators, upTo - 1) ensures issue.DuplicateAccount? && issue.index < upTo - 1 {
        DuplicateIssuesExactly(operators, upTo - 1, issue);
      }
      AppendInOrder(DuplicateIssues(operators, upTo - 1),
                    [DuplicateAccount(operators[upTo - 1].accountName, upTo - 1)]);
    }
  }

  lemma MemberIssuesAreOfGroup(types: map<string, OperatorType>, group: seq<string>, g: nat, upTo: nat, issue: Issue)
    requires upTo <= |group| && issue in MemberIssues(types, group, g, upTo)
    ensures (issue.RepeatedMember? || issue.NotABatchOperator?) && issue.group == g && issue.index < upTo
  {
    MemberIssuesExactly(types, group, g, upTo, issue);
  }

  lemma MemberIssueIsOfGroup(types: map<string, OperatorType>, group: seq<string>, g: nat, index: nat, issue: Issue)
    requires index < |group| && issue in MemberIssue(types, group, g, index)
    ensures (issue.RepeatedMember? || issue.NotABatchOperator?) && issue.group == g && issue.index == index
  {}

  lemma GroupIssuesAreOfGroups(types: map<string, OperatorType>, groups: seq<seq<string>>, upTo: nat, issue: Issue)
    requires upTo <= |groups| && issue in GroupIssues(types, groups, upTo)
    ensures (issue.RepeatedMember? || issue.NotABatchOperator?) && issue.group < upTo
  {
    GroupIssuesExactly(types, groups, upTo, issue);
  }

  lemma {:induction false} MemberIssuesInOrder(types: map<string, OperatorType>, group: seq<string>, g: nat, upTo: nat)
    requires upTo <= |group|
    ensures InOrder(MemberIssues(types, group, g, upTo))
  {
    if upTo == 0 {
      return;
    }
    var early, late := MemberIssues(types, group, g, upTo - 1), MemberIssue(types, group, g, upTo - 1);
    MemberIssuesInOrder(types, group, g, upTo - 1);
    forall a, b | a in early && b in late ensures Precedes(a, b) {
      MemberIssuesAreOfGroup(types, group, g, upTo - 1, a);
      MemberIssueIsOfGroup(types, group, g, upTo - 1, b);
    }
    AppendInOrder(early, late);
  }

  lemma {:induction false} GroupIssuesInOrder(types: map<string, OperatorType>, groups: seq<seq<string>>, upTo: nat)
    requires upTo <= |groups|
    ensures InOrder(GroupIssues(types, groups, upTo))
  {
    if upTo == 0 {
      return;
    }
    var early, late := GroupIssues(types, groups, upTo - 1), MemberIssues(types, groups[upTo - 1], upTo - 1, |groups[upTo - 1]|);
    GroupIssuesInOrder(types, groups, upTo - 1);
    MemberIssuesInOrder(types, groups[upTo - 1], upTo - 1, |groups[upTo - 1]|);
    forall a, b | a in early && b in late ensures Precedes(a, b) {
      GroupIssuesAreOfGroups(types, groups, upTo - 1, a);
      MemberIssuesAreOfGroup(types, groups[upTo - 1], upTo - 1, |groups[upTo - 1]|, b);
    }
    AppendInOrder(early, late);
  }

  /** The issues come in the order of the walk, each of them once. */
  lemma IssuesComeInOrder(document: Document)
    ensures InOrder(ConsistencyIssues(document))
  {
    var types := TypeByAccount(document.operators);
    var accounts, active := DuplicateIssues(document.operators, |document.operators|), ActiveGroupIssues(document);
    var members := GroupIssues(types, document.groups, |document.groups|);
    DuplicateIssuesInOrder(document.operators, |document.operators|);
    GroupIssuesInOrder(types, document.groups, |document.groups|);
    forall a, b | a in accounts && b in active ensures Precedes(a, b) {
      DuplicateIssuesExactly(document.operators, |document.operators|, a);
    }
    AppendInOrder(accounts, active);
    forall a, b | a in accounts + active && b in members ensures Precedes(a, b) {
      DuplicateIssuesExactly(document.operators, |document.operators|, a);
      GroupIssuesAreOfGroups(types, document.groups, |document.groups|, b);
    }
    AppendInOrder(accounts + active, members);
  }
}
