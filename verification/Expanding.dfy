/** preprocess.c's expansion as it runs: scanning loops, and exp_count fields that are raised and lowered again. */
module Expanding {
  import opened Expressions
  import opened Preprocessing

  /** the loop that looks for the parenthesis that closes a reference, from at on */
  method FindClosing(s: string, at: nat) returns (q: nat)
    requires at <= |s|
    ensures q == at + Closing(s[at..], 0)
  {
    hide Closing;
    q := at;
    var nest := 0;
    while q < |s|
      invariant at <= q <= |s| && 0 <= nest && at + Closing(s[at..], 0) == q + Closing(s[q..], nest)
    {
      ClosingStep(s, q, nest);
      if s[q] == '(' {
        nest := nest + 1;
      } else if s[q] == ')' {
        if nest == 0 { break; }
        nest := nest - 1;
      }
      q := q + 1;
    }
    if q == |s| {
      NoClosing(s, nest);
    }
  }

  lemma ClosingStep(s: string, q: nat, nest: nat)
    requires q < |s|
    ensures
      Closing(s[q..], nest)
      == if s[q] == '(' then 1 + Closing(s[q + 1..], nest + 1)
         else if s[q] == ')' then (if nest == 0 then 0 else 1 + Closing(s[q + 1..], nest - 1))
         else 1 + Closing(s[q + 1..], nest)
  {
    assert s[q..][1..] == s[q + 1..];
  }

  lemma NoClosing(s: string, nest: nat)
    ensures Closing(s[|s|..], nest) == 0
  {
  }

  /** the loop that splits a clause at its commas; the parts are the stretches between */
  method SplitClause(clause: string) returns (parts: seq<string>, ok: bool)
    ensures ok <==> |Split(clause, 0, "")| <= FUNCTION_MAX_ARGS
    ensures ok ==> parts == Split(clause, 0, "")
  {
    hide Split;
    parts := [];
    var prev, p, nest := 0, 0, 0;
    ghost var all, rest, begun := Split(clause, 0, ""), Split(clause, 0, ""), "";
    assert clause[0..] == clause && clause[0..0] == "";
    NoParts(all);
    while p < |clause|
      invariant 0 <= prev <= p <= |clause| && |parts| <= FUNCTION_MAX_ARGS && begun == clause[prev..p]
      invariant rest == Split(clause[p..], nest, begun) && parts + rest == all
    {
      SplitStep(clause, p, nest, begun);
      if nest == 0 && clause[p] == ',' {
        rest := Split(clause[p + 1..], 0, "");
        MoreParts(parts, begun, rest);
        if |parts| >= FUNCTION_MAX_ARGS {
          return parts, false;
        }
        parts := parts + [clause[prev..p]];
        prev, begun := p + 1, "";
      } else {
        nest := if clause[p] == '(' then nest + 1 else if clause[p] == ')' then nest - 1 else nest;
        begun := begun + [clause[p]];
      }
      p := p + 1;
    }
    SplitEnd(clause, p, nest, begun);
    if |parts| >= FUNCTION_MAX_ARGS {
      return parts, false;
    }
    parts, ok := parts + [clause[prev..p]], true;
  }

  lemma NoParts(all: seq<string>)
    ensures [] + all == all
  {
  }

  lemma MoreParts(parts: seq<string>, begun: string, more: seq<string>)
    ensures parts + ([begun] + more) == parts + [begun] + more
  {
  }

  lemma SplitStep(s: string, p: nat, nest: int, begun: string)
    requires p < |s|
    ensures
      Split(s[p..], nest, begun)
      == if nest == 0 && s[p] == ',' then [begun] + Split(s[p + 1..], 0, "")
         else Split(s[p + 1..], if s[p] == '(' then nest + 1 else if s[p] == ')' then nest - 1 else nest, begun + [s[p]])
    ensures |Split(s[p + 1..], 0, "")| > 0
  {
    assert s[p..][1..] == s[p + 1..];
  }

  lemma SplitEnd(s: string, p: nat, nest: int, begun: string)
    requires p == |s|
    ensures Split(s[p..], nest, begun) == [begun]
  {
  }

  /** variable_lookup */
  method FindVariable(vars: seq<Variable>, name: string) returns (i: nat)
    ensures i == Lookup(vars, name)
  {
    i := 0;
    while i < |vars| && vars[i].name != name
      invariant i <= |vars| && forall k :: 0 <= k < i ==> vars[k].name != name
    {
      i := i + 1;
    }
  }

  class Preprocessor {
    const m: Macros

    /** the exp_count fields */
    var counts: Counts

    constructor (m: Macros)
      ensures this.m == m && |counts| == |m.vars| && forall n <- counts :: n == 0
    {
      this.m := m;
      counts := seq(|m.vars|, _ => 0);
    }

    /** variable_expand. Unless the run ends in an error, the counts are as before. */
    method VariableExpand(name: string, args: seq<string>) returns (f: Found)
      requires |counts| == |m.vars|
      modifies this
      ensures f == Preprocessing.VariableExpand(m, old(counts), name, args)
      ensures f != Found(Error) ==> counts == old(counts)
      decreases Budget(counts), 0, 0
    {
      hide Expand, Lookup;
      var i := FindVariable(m.vars, name);
      if i == |m.vars| {
        return NotFound;
      }
      if args == [] && counts[i] > 0 {
        return Found(Error);
      }
      if counts[i] > 1000 {
        return Found(Error);
      }
      BudgetEntered(counts, i);
      counts := counts[i := counts[i] + 1];
      var res := m.vars[i].value;
      if m.vars[i].recursive {
        var o := ExpandString(res, args, false);
        if o.Error? {
          return Found(Error);
        }
        res := o.text;
      }
      counts := counts[i := counts[i] - 1];
      return Found(Ok(res, ""));
    }

    /** eval_clause */
    method EvalClause(clause: string, args: seq<string>) returns (o: Outcome)
      requires |counts| == |m.vars|
      modifies this
      ensures o == Preprocessing.EvalClause(m, old(counts), clause, args)
      ensures o.Ok? ==> counts == old(counts)
      decreases Budget(counts), |clause|, 3
    {
      var n := Number(clause);
      if 0 < n <= |args| {
        return Ok(args[n - 1], "");
      }
      var parts, ok := SplitClause(clause);
      if !ok {
        return Error;
      }
      var all := ExpandParts(parts, args, |clause|);
      if all == None {
        return Error;
      }
      var name, given := all.value[0], all.value[1..];
      var f := VariableExpand(name, given);
      if f.Found? {
        return f.outcome;
      }
      o := Otherwise(m, name, given);
    }

    /** the loop over the parts of a clause */
    method ExpandParts(parts: seq<string>, args: seq<string>, bound: nat) returns (all: Option<seq<string>>)
      requires |counts| == |m.vars| && forall p <- parts :: |p| <= bound
      modifies this
      ensures all == ExpandAll(m, old(counts), parts, args, bound)
      ensures all.Some? ==> counts == old(counts)
      decreases Budget(counts), bound, 2
    {
      var done: seq<string> := [];
      var i := 0;
      assert parts[0..] == parts;
      AddNone(ExpandAll(m, counts, parts, args, bound));
      while i < |parts|
        invariant 0 <= i <= |parts| && counts == old(counts)
        invariant ExpandAll(m, old(counts), parts, args, bound) == Added(done, ExpandAll(m, old(counts), parts[i..], args, bound))
      {
        var o := ExpandString(parts[i], args, false);
        assert parts[i..][1..] == parts[i + 1..];
        if o.Error? {
          return None;
        }
        AddOne(done, o.text, ExpandAll(m, old(counts), parts[i + 1..], args, bound));
        done := done + [o.text];
        i := i + 1;
      }
      assert done + [] == done;
      all := Some(done);
    }

    /** expand_dollar_with_args, behind the dollar at p: the expansion, and where the scan goes on */
    method ExpandDollar(s: string, p: nat, args: seq<string>) returns (o: Outcome, next: nat)
      requires |counts| == |m.vars| && p <= |s|
      modifies this
      ensures p == |s| || s[p] != '(' ==> o == Ok("$", "") && next == p && counts == old(counts)
      ensures p < |s| && s[p] == '(' ==>
                var q := p + 1 + Closing(s[p + 1..], 0);
                if q == |s| then o == Error
                else next == q + 1 && o == Preprocessing.EvalClause(m, old(counts), s[p + 1..q], args)
      ensures o.Ok? ==> counts == old(counts) && p <= next <= |s|
      decreases Budget(counts), |s|, 0
    {
      hide Closing, Preprocessing.EvalClause;
      next := p;
      if p == |s| || s[p] != '(' {
        return Ok("$", ""), p;
      }
      var q := FindClosing(s, p + 1);
      if q == |s| {
        return Error, p;
      }
      o := EvalClause(s[p + 1..q], args);
      next := q + 1;
    }

    /** __expand_string: the loop that copies literal text and the expansions of references */
    method ExpandString(s: string, args: seq<string>, token: bool) returns (o: Outcome)
      requires |counts| == |m.vars|
      modifies this
      ensures o == Expand(m, old(counts), s, args, token)
      ensures o.Ok? ==> counts == old(counts)
      decreases Budget(counts), |s|, 1
    {
      hide Expand, Preprocessing.EvalClause, Closing, Before;
      var out: string := "";
      var start, p := 0, 0;
      ghost var c, got := counts, "";
      assert s[0..] == s && out + s[0..0] == got;
      BeforeTwice("", "", Expand(m, counts, s, args, token));
      while true
        invariant 0 <= start <= p <= |s| && counts == c && got == out + s[start..p]
        invariant Expand(m, c, s, args, token) == Before(got, Expand(m, c, s[p..], args, token))
        decreases |s| - p
      {
        if p < |s| && s[p] == '$' {
          var e, next := ExpandDollar(s, p + 1, args);
          ReferenceStep(m, c, s, p, args, token);
          if e.Error? {
            BeforeError(got);
            return Error;
          }
          BeforeTwice(got, e.text, Expand(m, c, s[next..], args, token));
          out := out + s[start..p] + e.text;
          start, p := next, next;
          got := got + e.text;
          assert out + s[start..p] == got;
        } else {
          if p == |s| || IsEnd(s[p], token) {
            break;
          }
          LiteralStep(m, c, s, p, args, token);
          BeforeTwice(got, [s[p]], Expand(m, c, s[p + 1..], args, token));
          got := got + [s[p]];
          p := p + 1;
          assert got == out + s[start..p];
        }
      }
      EndStep(m, c, s, p, args, token);
      BeforeEnd(got, s[p..]);
      o := Ok(out + s[start..p], s[p..]);
    }
  }

  lemma BeforeError(text: string)
    ensures Before(text, Error) == Error
  {
  }

  lemma BeforeEnd(text: string, rest: string)
    ensures Before(text, Ok("", rest)) == Ok(text, rest)
  {
    assert text + "" == text;
  }

  /** what the loop of __expand_string does at a dollar */
  lemma ReferenceStep(m: Macros, c: Counts, s: string, p: nat, args: seq<string>, token: bool)
    requires |c| == |m.vars| && p < |s| && s[p] == '$'
    ensures
      var o := Expand(m, c, s[p..], args, token);
      if p + 1 == |s| || s[p + 1] != '(' then o == Before("$", Expand(m, c, s[p + 1..], args, token))
      else
        var q := p + 2 + Closing(s[p + 2..], 0);
        if q == |s| then o == Error
        else
          var e := Preprocessing.EvalClause(m, c, s[p + 2..q], args);
          o == if e.Error? then Error else Before(e.text, Expand(m, c, s[q + 1..], args, token))
  {
    hide Preprocessing.EvalClause, Before;
    var r := s[p..];
    assert r[1..] == s[p + 1..];
    if p + 1 < |s| && s[p + 1] == '(' {
      assert r[2..] == s[p + 2..];
      var q := Closing(r[2..], 0);
      if q < |r[2..]| {
        assert r[2..2 + q] == s[p + 2..p + 2 + q] && r[2 + q + 1..] == s[p + 2 + q + 1..];
      }
    }
  }

  lemma LiteralStep(m: Macros, c: Counts, s: string, p: nat, args: seq<string>, token: bool)
    requires |c| == |m.vars| && p < |s| && s[p] != '$' && !IsEnd(s[p], token)
    ensures Expand(m, c, s[p..], args, token) == Before([s[p]], Expand(m, c, s[p + 1..], args, token))
  {
    assert s[p..][1..] == s[p + 1..];
  }

  lemma EndStep(m: Macros, c: Counts, s: string, p: nat, args: seq<string>, token: bool)
    requires |c| == |m.vars| && p <= |s| && (p < |s| ==> s[p] != '$' && IsEnd(s[p], token))
    ensures Expand(m, c, s[p..], args, token) == Ok("", s[p..])
  {
  }

  function Added(done: seq<string>, more: Option<seq<string>>): Option<seq<string>> {
    if more.None? then None else Some(done + more.value)
  }

  lemma AddNone(more: Option<seq<string>>)
    ensures Added([], more) == more
  {
    if more.Some? {
      assert [] + more.value == more.value;
    }
  }

  lemma AddOne(done: seq<string>, t: string, more: Option<seq<string>>)
    ensures Added(done, Added([t], more)) == Added(done + [t], more)
  {
    if more.Some? {
      assert done + ([t] + more.value) == done + [t] + more.value;
    }
  }
}
