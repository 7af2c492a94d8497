/** checkWorkflowConditions: a workflow matches a contact when every one of
    its conditions holds. A condition compares one contact field with a
    value, both lower-cased, by equality, substring, prefix or suffix. */
module Conditions {
  import opened Options

  /** A contact as handleCreateContact builds it; owner is a rep id or null. */
  datatype Contact = Contact(
    id: string,
    firstName: string,
    lastName: string,
    email: string,
    company: string,
    owner: Option<string>,
    createdAt: string)

  /** One row of a workflow's condition list. */
  datatype Condition = Condition(field: string, operator: string, value: string)

  /** toLowerCase on one character, for the ASCII letters. */
  function LowerChar(c: char): char {
    if 'A' <= c <= 'Z' then (c as int + 32) as char else c
  }

  /** toLowerCase on a string. */
  function Lower(s: string): string {
    seq(|s|, i requires 0 <= i < |s| => LowerChar(s[i]))
  }

  /** Lower-casing leaves no upper-case letter behind. */
  lemma LowerHasNoUpper(s: string)
    ensures forall i :: 0 <= i < |Lower(s)| ==> !('A' <= Lower(s)[i] <= 'Z')
  {
  }

  /** Lower-casing twice is lower-casing once. */
  lemma LowerIdempotent(s: string)
    ensures Lower(Lower(s)) == Lower(s)
  {
    assert forall i :: 0 <= i < |s| ==> LowerChar(LowerChar(s[i])) == LowerChar(s[i]);
  }

  /** startsWith. */
  predicate IsPrefix(p: string, s: string) {
    |p| <= |s| && s[..|p|] == p
  }

  /** endsWith. */
  predicate IsSuffix(p: string, s: string) {
    |p| <= |s| && s[|s| - |p|..] == p
  }

  /** includes: n starts at the front of s or somewhere in its tail. */
  predicate Contains(s: string, n: string)
    decreases |s|
  {
    IsPrefix(n, s) || (|s| > 0 && Contains(s[1..], n))
  }

  /** s includes n exactly when n starts at some position of s. */
  lemma {:induction false} ContainsAt(s: string, n: string)
    ensures Contains(s, n) <==> exists i :: 0 <= i <= |s| && IsPrefix(n, s[i..])
    decreases |s|
  {
    if |s| > 0 {
      ContainsAt(s[1..], n);
      if Contains(s[1..], n) {
        var i :| 0 <= i <= |s[1..]| && IsPrefix(n, s[1..][i..]);
        assert s[1..][i..] == s[i + 1..];
      }
      if i :| 0 < i <= |s| && IsPrefix(n, s[i..]) {
        assert s[1..][i - 1..] == s[i..];
      }
    }
    assert s[0..] == s;
  }

  /** A prefix or a suffix is also included. */
  lemma AffixContained(s: string, n: string)
    ensures IsPrefix(n, s) ==> Contains(s, n)
    ensures IsSuffix(n, s) ==> Contains(s, n)
  {
    if IsSuffix(n, s) {
      var i := |s| - |n|;
      assert s[i..][..|n|] == n;
      ContainsAt(s, n);
    }
  }

  /** The fields a contact has; contact[field] is undefined for any other
      name, and null for an unassigned owner. */
  function Field(c: Contact, field: string): Option<string> {
    if field == "id" then Some(c.id)
    else if field == "firstName" then Some(c.firstName)
    else if field == "lastName" then Some(c.lastName)
    else if field == "email" then Some(c.email)
    else if field == "company" then Some(c.company)
    else if field == "owner" then c.owner
    else if field == "createdAt" then Some(c.createdAt)
    else None
  }

  /** contact[field]?.toLowerCase() || '' */
  function ContactValue(c: Contact, field: string): string {
    match Field(c, field)
    case Some(v) => Lower(v)
    case None => ""
  }

  /** The switch on condition.operator. */
  predicate ConditionHolds(c: Contact, cond: Condition) {
    var contactValue := ContactValue(c, cond.field);
    var conditionValue := Lower(cond.value);
    if cond.operator == "equals" then contactValue == conditionValue
    else if cond.operator == "contains" then Contains(contactValue, conditionValue)
    else if cond.operator == "starts_with" then IsPrefix(conditionValue, contactValue)
    else if cond.operator == "ends_with" then IsSuffix(conditionValue, contactValue)
    else false
  }

  /** The four operators the workflow form offers. */
  predicate KnownOperator(op: string) {
    op == "equals" || op == "contains" || op == "starts_with" || op == "ends_with"
  }

  /** conditions.every(...): true exactly when every condition holds, so an
      empty list matches every contact. */
  function MatchesAll(c: Contact, conditions: seq<Condition>): (r: bool)
    ensures r <==> forall i :: 0 <= i < |conditions| ==> ConditionHolds(c, conditions[i])
  {
    if |conditions| == 0 then true
    else
      assert forall i :: 1 <= i < |conditions| ==> conditions[i] == conditions[1..][i - 1];
      ConditionHolds(c, conditions[0]) && MatchesAll(c, conditions[1..])
  }

  /** Any operator outside the four fails, whatever the values. */
  lemma UnknownOperatorFails(c: Contact, cond: Condition)
    requires !KnownOperator(cond.operator)
    ensures !ConditionHolds(c, cond)
  {
  }

  /** Each known operator means what its name says, on the lower-cased
      values: equality, substring at some position, prefix, suffix. */
  lemma OperatorMeaning(c: Contact, cond: Condition)
    ensures var v, n := ContactValue(c, cond.field), Lower(cond.value);
      && (cond.operator == "equals" ==> (ConditionHolds(c, cond) <==> v == n))
      && (cond.operator == "contains" ==> (ConditionHolds(c, cond) <==> exists i :: 0 <= i <= |v| && IsPrefix(n, v[i..])))
      && (cond.operator == "starts_with" ==> (ConditionHolds(c, cond) <==> |n| <= |v| && v[..|n|] == n))
      && (cond.operator == "ends_with" ==> (ConditionHolds(c, cond) <==> |n| <= |v| && v[|v| - |n|..] == n))
  {
    ContainsAt(ContactValue(c, cond.field), Lower(cond.value));
  }

  /** The case of the condition's value does not matter. */
  lemma ValueCaseInsensitive(c: Contact, field: string, operator: string, value: string)
    ensures ConditionHolds(c, Condition(field, operator, value)) == ConditionHolds(c, Condition(field, operator, Lower(value)))
  {
    LowerIdempotent(value);
  }

  /** The case of the contact's fields does not matter either. */
  lemma ContactCaseInsensitive(c: Contact, cond: Condition)
    ensures ConditionHolds(LowerContact(c), cond) == ConditionHolds(c, cond)
  {
    LowerIdempotent(c.id);
    LowerIdempotent(c.firstName);
    LowerIdempotent(c.lastName);
    LowerIdempotent(c.email);
    LowerIdempotent(c.company);
    LowerIdempotent(c.createdAt);
    if c.owner.Some? {
      LowerIdempotent(c.owner.value);
    }
  }

  /** The contact with every field lower-cased. */
  function LowerContact(c: Contact): Contact {
    Contact(Lower(c.id), Lower(c.firstName), Lower(c.lastName), Lower(c.email), Lower(c.company),
      if c.owner.Some? then Some(Lower(c.owner.value)) else None, Lower(c.createdAt))
  }

  /** A field the contact does not have (or an unassigned owner) reads as
      the empty string: a known operator then holds exactly when the
      condition's value is empty. */
  lemma MissingFieldIsEmpty(c: Contact, cond: Condition)
    requires Field(c, cond.field).None?
    ensures ConditionHolds(c, cond) <==> KnownOperator(cond.operator) && cond.value == ""
  {
    if cond.operator == "contains" && cond.value != "" {
      assert !IsPrefix(Lower(cond.value), "");
    }
  }

  /** An empty condition list matches every contact. */
  lemma EmptyConditionsMatch(c: Contact)
    ensures MatchesAll(c, [])
  {
  }

  /** Adding conditions can only narrow the set of matching contacts. */
  lemma MoreConditionsNarrow(c: Contact, conds: seq<Condition>, more: seq<Condition>)
    ensures MatchesAll(c, conds + more) <==> MatchesAll(c, conds) && MatchesAll(c, more)
  {
    assert forall i :: 0 <= i < |conds| ==> conds[i] == (conds + more)[i];
    assert forall i :: 0 <= i < |more| ==> more[i] == (conds + more)[|conds| + i];
  }
}
