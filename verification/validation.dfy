/**
  The pieces of the framework's request validation that the controllers' rule
  strings use: which rules run on a parameter, and the per-field error report.
 */
module Validation {
  import opened Text
  import opened Request
  import Tables

  /** A validation rule that failed; the 422 body lists them per field. */
  datatype Rule =
    | Required
    | IsString
    | MaxLength(limit: nat)
    | MinLength(limit: nat)
    | Numeric
    | MinValue(bound: int)
    | Email
    | Unique
    | Confirmed

  /** The 422 body: field name to the rules that field failed, in rule order. */
  type Errors = map<string, seq<Rule>>

  /**
    The `required` rule: present, not null, and not blank by PHP's `trim()`, whose
    character class differs from the middleware's.
   */
  predicate Filled(v: Input) {
    v.Str? && !Blank(v.s)
  }

  /**
    A value the middleware leaves as a string fails `required` only when it starts
    and ends with NUL, which the middleware keeps and `trim()` strips.
   */
  lemma NormalizedFilled(v: Input)
    ensures Normalize(v, true).Str? && !Filled(Normalize(v, true)) ==>
      Normalize(v, true).s[0] == '\0' && Normalize(v, true).s[|Normalize(v, true).s| - 1] == '\0'
  {
  }

  /** NUL alone survives the middleware and fails `required`. */
  lemma NulIsBlank()
    ensures Normalize(Str("\0"), true) == Str("\0")
    ensures !Filled(Normalize(Str("\0"), true))
  {
    var s := "\0";
    assert |s| == 1 && IsTrimChar(s[0]) && !IsSpace(s[0]);
    assert Blank(s);
    NormalizeKeeps(s, true);
  }

  /**
    Six form feeds pass `required` and survive the untrimmed path of the middleware;
    on a trimmed field they would have become null.
   */
  lemma FormFeedsFilled()
    ensures Normalize(Str("\U{000C}\U{000C}\U{000C}\U{000C}\U{000C}\U{000C}"), false) ==
      Str("\U{000C}\U{000C}\U{000C}\U{000C}\U{000C}\U{000C}")
    ensures Filled(Str("\U{000C}\U{000C}\U{000C}\U{000C}\U{000C}\U{000C}"))
    ensures Normalize(Str("\U{000C}\U{000C}\U{000C}\U{000C}\U{000C}\U{000C}"), true).Null?
  {
    var s := "\U{000C}\U{000C}\U{000C}\U{000C}\U{000C}\U{000C}";
    assert !IsTrimChar(s[0]);
  }

  /**
    Whether the non-implicit rules of a field run at all: a missing field and a
    blank string skip them, and so does null when the field is `nullable`.
   */
  predicate Checked(v: Input, nullable: bool) {
    Filled(v) || (v.Null? && !nullable)
  }

  /** `required|...`: a missing, null or blank value fails `required` and nothing else runs. */
  function RequiredRules(v: Input, rest: seq<Rule>): seq<Rule> {
    if !Filled(v) then [Required] else rest
  }

  /** Record the failed rules of one field; a field that failed nothing is not reported. */
  function Report(errors: Errors, field: string, failed: seq<Rule>): (r: Errors)
    ensures field in r <==> field in errors || failed != []
    ensures failed != [] ==> r[field] == failed
    ensures forall f :: f in errors && f != field ==> f in r && r[f] == errors[f]
    ensures forall f :: f in r && f != field ==> f in errors
  {
    if failed == [] then errors else errors[field := failed]
  }

  /** Reporting on distinct fields: the report is empty iff every field passed. */
  lemma {:induction false} ReportEmpty(fields: seq<string>, failed: seq<seq<Rule>>)
    requires |fields| == |failed|
    ensures ReportAll(fields, failed) == map[] <==> forall i :: 0 <= i < |failed| ==> failed[i] == []
  {
    if |fields| > 0 {
      var n := |fields| - 1;
      ReportEmpty(fields[..n], failed[..n]);
      var e := ReportAll(fields[..n], failed[..n]);
      if failed[n] != [] {
        assert fields[n] in Report(e, fields[n], failed[n]);
      }
    }
  }

  /** Report each field in turn. */
  function ReportAll(fields: seq<string>, failed: seq<seq<Rule>>): (r: Errors)
    requires |fields| == |failed|
    ensures forall f :: f in r ==> f in fields
    ensures forall i :: 0 <= i < |fields| && failed[i] != [] ==> fields[i] in r
  {
    if |fields| == 0 then map[]
    else
      var n := |fields| - 1;
      Report(ReportAll(fields[..n], failed[..n]), fields[n], failed[n])
  }

  /** With distinct field names, a failing field's entry is exactly the rules it failed. */
  lemma {:induction false} ReportedAs(fields: seq<string>, failed: seq<seq<Rule>>, i: nat)
    requires |fields| == |failed| && Tables.Distinct(fields)
    requires i < |fields| && failed[i] != []
    ensures fields[i] in ReportAll(fields, failed)
    ensures ReportAll(fields, failed)[fields[i]] == failed[i]
  {
    var n := |fields| - 1;
    if i < n {
      assert fields[..n][i] == fields[i] && failed[..n][i] == failed[i];
      assert Tables.Distinct(fields[..n]);
      ReportedAs(fields[..n], failed[..n], i);
      assert fields[i] != fields[n];
    }
  }

  /** Three fields pass exactly when each of them does. */
  lemma ThreePassed(failed: seq<seq<Rule>>)
    requires |failed| == 3
    ensures (forall i :: 0 <= i < |failed| ==> failed[i] == []) <==>
      failed[0] == [] && failed[1] == [] && failed[2] == []
  {
  }

  /** Four fields pass exactly when each of them does. */
  lemma FourPassed(failed: seq<seq<Rule>>)
    requires |failed| == 4
    ensures (forall i :: 0 <= i < |failed| ==> failed[i] == []) <==>
      failed[0] == [] && failed[1] == [] && failed[2] == [] && failed[3] == []
  {
  }
}
