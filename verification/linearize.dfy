/** The action-sequence linearizer of `Dataset.load_output`: each code tree's
    production list becomes a sequence of APPLY_RULE / GEN_TOKEN /
    COPY_TOKEN / GEN_COPY_TOKEN actions whose `parentT` fields point back at
    the APPLY_RULE of the enclosing production. The grammar, the terminal
    vocabulary and the sub-token splitter are the program's collaborators and
    enter as plain data or as a function. */
module Linearize {
  import opened Results

  type NodeType = string

  /** A grammar production as the grammar classes expose it: the node type
      it expands (`rule.parent`), its child types, and the literal a value
      node carries (`rule.value`, absent on structural rules). */
  datatype Rule = Rule(parent: NodeType, children: seq<NodeType>, value: Option<string>) {
    predicate IsLeaf() {
      |children| == 0
    }
  }

  /** One entry of a tree's production list: the rule and the rule of the
      enclosing node, `None` at the root. */
  datatype Production = Production(rule: Rule, parentRule: Option<Rule>)

  /** The frozen grammar: rule ids, node-type ids and the value-node test. */
  datatype Grammar = Grammar(ruleToId: map<Rule, int>, nodeTypeId: map<NodeType, int>, valueNodes: set<NodeType>) {
    predicate IsValueNode(t: NodeType) {
      t in valueNodes
    }
  }

  /** The terminal vocabulary: a total lookup that answers `unk` for every
      token it has not seen. */
  datatype TerminalVocab = TerminalVocab(ids: map<string, int>, unk: int) {
    function Lookup(tok: string): (id: int)
      ensures tok !in ids ==> id == unk
    {
      if tok in ids then ids[tok] else unk
    }
  }

  /** The four action kinds. Every action records the rule it belongs to, the
      rule of its parent and `parentT`, the index of that parent's APPLY_RULE. */
  datatype Action =
    | ApplyRule(rule: Rule, parentRule: Option<Rule>, parentT: nat)
    | GenToken(literal: string, rule: Rule, parentRule: Option<Rule>, parentT: nat)
    | CopyToken(literal: string, rule: Rule, parentRule: Option<Rule>, parentT: nat, sourceIdx: nat)
    | GenCopyToken(literal: string, rule: Rule, parentRule: Option<Rule>, parentT: nat, sourceIdx: nat)

  /** The fixed parameters of one linearization run: the grammar, the terminal
      vocabulary, `config.max_query_length` and the sub-token splitter. */
  datatype Context = Context(grammar: Grammar, vocab: TerminalVocab, maxQueryLength: int, subTokens: string -> seq<string>)

  /** Why a production list could not be linearized: the two assertions of
      the loop body and the `KeyError` of the `rule_pos_map` lookup. */
  datatype LinError =
    | ValueOnStructuralRule(rule: Rule)
    | NonLeafValueRule(rule: Rule)
    | UnknownParent(parentRule: Option<Rule>)

  /** The literal closing every value node's run. */
  const Eos: string := "<eos>"

  /** `str(rule.value)`: a value node without a value prints as `None`. */
  function TerminalString(v: Option<string>): string
  {
    match v
    case None => "None"
    case Some(s) => s
  }

  /** `query_tokens.index(tok)`, with -1 standing for the `ValueError` the
      loop swallows. */
  function FirstIndex(query: seq<string>, tok: string): (r: int)
    ensures r == -1 <==> tok !in query
    ensures r != -1 ==> 0 <= r < |query| && query[r] == tok
    ensures forall j :: 0 <= j < r && j < |query| ==> query[j] != tok
  {
    if |query| == 0 then -1
    else if query[0] == tok then 0
    else
      var k := FirstIndex(query[1..], tok);
      if k == -1 then -1 else k + 1
  }

  /** The part of the query a token may be copied from: its first
      `maxQueryLength` positions. */
  function Window(query: seq<string>, maxQueryLength: int): seq<string>
  {
    if maxQueryLength <= 0 then []
    else if maxQueryLength >= |query| then query
    else query[..maxQueryLength]
  }

  /** The copy/generate decision for one sub-token. A token that does not
      occur in the copy window can only be generated; one that does is
      copied from its first occurrence, and is also generated when the
      vocabulary knows it. */
  function Classify(tok: string, query: seq<string>, vocab: TerminalVocab, maxQueryLength: int,
                    rule: Rule, parentRule: Option<Rule>, parentT: nat): (a: Action)
    ensures !a.ApplyRule?
    ensures a.literal == tok && a.rule == rule && a.parentRule == parentRule && a.parentT == parentT
    ensures a.GenToken? <==> tok !in Window(query, maxQueryLength)
    ensures a.GenCopyToken? <==> tok in Window(query, maxQueryLength) && vocab.Lookup(tok) != vocab.unk
    ensures a.CopyToken? <==> tok in Window(query, maxQueryLength) && vocab.Lookup(tok) == vocab.unk
    ensures (a.CopyToken? || a.GenCopyToken?) ==>
              && a.sourceIdx < |query| && a.sourceIdx < maxQueryLength && query[a.sourceIdx] == tok
              && forall j :: 0 <= j < a.sourceIdx ==> query[j] != tok
  {
    var src := FirstIndex(query, tok);
    WindowFirstIndex(query, tok, maxQueryLength);
    if src < 0 || src >= maxQueryLength then GenToken(tok, rule, parentRule, parentT)
    else if vocab.Lookup(tok) != vocab.unk then GenCopyToken(tok, rule, parentRule, parentT, src)
    else CopyToken(tok, rule, parentRule, parentT, src)
  }

  /** A token lies in the copy window exactly when its first occurrence does. */
  lemma WindowFirstIndex(query: seq<string>, tok: string, maxQueryLength: int)
    ensures tok in Window(query, maxQueryLength) <==> 0 <= FirstIndex(query, tok) < maxQueryLength
  {
    var k := FirstIndex(query, tok);
    var w := Window(query, maxQueryLength);
    if 0 <= k < maxQueryLength {
      assert w[k] == tok;
    }
    if tok in w {
      var i :| 0 <= i < |w| && w[i] == tok;
      assert query[i] == tok;
    }
  }

  /** The actions one value node contributes: one per sub-token, then the
      end marker. */
  function ValueRun(toks: seq<string>, query: seq<string>, vocab: TerminalVocab, maxQueryLength: int,
                    rule: Rule, parentRule: Option<Rule>, parentT: nat): (run: seq<Action>)
    ensures |run| == |toks| + 1
    ensures forall i :: 0 <= i < |run| ==>
              && !run[i].ApplyRule?
              && run[i].rule == rule && run[i].parentRule == parentRule && run[i].parentT == parentT
    ensures forall i :: 0 <= i < |toks| ==> run[i].literal == toks[i]
    ensures forall i :: 0 <= i < |toks| && toks[i] !in Window(query, maxQueryLength) ==>
              run[i] == GenToken(toks[i], rule, parentRule, parentT)
    ensures forall i :: 0 <= i < |toks| && toks[i] in Window(query, maxQueryLength) ==>
              && (run[i].CopyToken? || run[i].GenCopyToken?)
              && (run[i].GenCopyToken? <==> vocab.Lookup(toks[i]) != vocab.unk)
              && run[i].sourceIdx == FirstIndex(query, toks[i])
    ensures run[|toks|] == GenToken(Eos, rule, parentRule, parentT)
  {
    seq(|toks|, i requires 0 <= i < |toks| => Classify(toks[i], query, vocab, maxQueryLength, rule, parentRule, parentT))
      + [GenToken(Eos, rule, parentRule, parentT)]
  }

  /** A token at position exactly `maxQueryLength` is outside the window and
      is only generated, although it occurs in the query. */
  lemma ClassifyWindowBoundary(vocab: TerminalVocab, rule: Rule, parentRule: Option<Rule>, parentT: nat)
    ensures Classify("x", ["create", "list", "x"], vocab, 2, rule, parentRule, parentT)
              == GenToken("x", rule, parentRule, parentT)
  {
    assert "x" !in Window(["create", "list", "x"], 2) by {
      assert Window(["create", "list", "x"], 2) == ["create", "list"];
    }
  }

  /** A known token inside the window is both generated and copied from its
      position; the run then closes with the end marker. */
  lemma ValueRunKnownToken(vocab: TerminalVocab, rule: Rule, parentRule: Option<Rule>, parentT: nat)
    requires "x" in vocab.ids && vocab.ids["x"] != vocab.unk
    ensures ValueRun(["x"], ["create", "list", "x"], vocab, 5, rule, parentRule, parentT)
              == [GenCopyToken("x", rule, parentRule, parentT, 2), GenToken(Eos, rule, parentRule, parentT)]
  {
    var query := ["create", "list", "x"];
    assert query[2] == "x" && query[0] != "x" && query[1] != "x";
    assert "x" in Window(query, 5);
  }

  /** Sub-tokens absent from the window, whether missing from the query or
      found only beyond the window, are generated. */
  lemma ValueRunOutOfWindow(query: seq<string>, vocab: TerminalVocab, rule: Rule, parentRule: Option<Rule>, parentT: nat)
    requires |query| == 11 && query[10] == "bar"
    requires "foo" !in query && forall j :: 0 <= j < 10 ==> query[j] != "bar"
    ensures var run := ValueRun(["foo", "_", "bar"], query, vocab, 5, rule, parentRule, parentT);
            run[0].GenToken? && run[2].GenToken? && run[3] == GenToken(Eos, rule, parentRule, parentT)
  {
    WindowFirstIndex(query, "foo", 5);
    WindowFirstIndex(query, "bar", 5);
  }

  /** The loop state: the actions emitted so far and `rule_pos_map`. */
  datatype LinState = LinState(actions: seq<Action>, pos: map<Rule, nat>)

  /** Action `k` points at the most recent APPLY_RULE of its parent rule, which
      comes strictly earlier; an action without a parent rule is an
      APPLY_RULE with `parentT` 0. */
  ghost predicate PointsBack(acts: seq<Action>, k: nat)
    requires k < |acts|
  {
    match acts[k].parentRule
    case None => acts[k].ApplyRule? && acts[k].parentT == 0
    case Some(pr) =>
      && acts[k].parentT < k
      && acts[acts[k].parentT].ApplyRule? && acts[acts[k].parentT].rule == pr
      && forall j :: acts[k].parentT < j < k ==> !(acts[j].ApplyRule? && acts[j].rule == pr)
  }

  /** The invariant of the loop: `rule_pos_map` sends every rule that has an
      APPLY_RULE to the index of its latest one, and every action points back
      correctly. */
  ghost predicate WellFormed(st: LinState)
  {
    && (forall r :: r in st.pos ==>
          && st.pos[r] < |st.actions|
          && st.actions[st.pos[r]].ApplyRule? && st.actions[st.pos[r]].rule == r
          && forall j :: st.pos[r] < j < |st.actions| ==> !(st.actions[j].ApplyRule? && st.actions[j].rule == r))
    && (forall k :: 0 <= k < |st.actions| && st.actions[k].ApplyRule? ==> st.actions[k].rule in st.pos)
    && (forall k :: 0 <= k < |st.actions| ==> PointsBack(st.actions, k))
  }

  /** One iteration of the loop over the production list. */
  function Step(st: LinState, p: Production, query: seq<string>, ctx: Context): (r: Result<LinState, LinError>)
    ensures r.Failure? <==>
              if !ctx.grammar.IsValueNode(p.rule.parent)
              then p.rule.value.Some? || (p.parentRule.Some? && p.parentRule.value !in st.pos)
              else !p.rule.IsLeaf() || p.parentRule.None? || p.parentRule.value !in st.pos
    ensures r.Success? ==> |r.value.actions| > |st.actions| && r.value.actions[..|st.actions|] == st.actions
    // a structural rule: exactly one APPLY_RULE, recorded in the position map
    ensures r.Success? && !ctx.grammar.IsValueNode(p.rule.parent) ==>
              && |r.value.actions| == |st.actions| + 1
              && r.value.actions[|st.actions|].ApplyRule?
              && r.value.actions[|st.actions|].rule == p.rule
              && r.value.actions[|st.actions|].parentRule == p.parentRule
              && r.value.actions[|st.actions|].parentT == (if p.parentRule.None? then 0 else st.pos[p.parentRule.value])
              && p.rule in r.value.pos && r.value.pos[p.rule] == |st.actions|
              && forall q :: q in st.pos && q != p.rule ==> q in r.value.pos && r.value.pos[q] == st.pos[q]
    // a value rule: one action per sub-token, then the end marker, all sharing the parent
    ensures r.Success? && ctx.grammar.IsValueNode(p.rule.parent) ==>
              var toks := ctx.subTokens(TerminalString(p.rule.value));
              var n := |st.actions|;
              && |r.value.actions| == n + |toks| + 1
              && r.value.pos == st.pos
              && (forall i :: n <= i < |r.value.actions| ==>
                    && !r.value.actions[i].ApplyRule?
                    && r.value.actions[i].rule == p.rule
                    && r.value.actions[i].parentRule == p.parentRule
                    && r.value.actions[i].parentT == st.pos[p.parentRule.value])
              && (forall i :: 0 <= i < |toks| ==> r.value.actions[n + i].literal == toks[i])
              && r.value.actions[n + |toks|].GenToken? && r.value.actions[n + |toks|].literal == Eos
    // ... and the appended actions are the copy/generate classification of the sub-tokens
    ensures r.Success? && ctx.grammar.IsValueNode(p.rule.parent) ==>
              r.value.actions[|st.actions|..]
                == ValueRun(ctx.subTokens(TerminalString(p.rule.value)), query, ctx.vocab, ctx.maxQueryLength,
                            p.rule, p.parentRule, st.pos[p.parentRule.value])
  {
    var rule := p.rule;
    if !ctx.grammar.IsValueNode(rule.parent) then
      if rule.value.Some? then Failure(ValueOnStructuralRule(rule))
      else if p.parentRule.Some? && p.parentRule.value !in st.pos then Failure(UnknownParent(p.parentRule))
      else
        var parentT := if p.parentRule.Some? then st.pos[p.parentRule.value] else 0;
        var acts := st.actions + [ApplyRule(rule, p.parentRule, parentT)];
        assert acts[..|st.actions|] == st.actions;
        Success(LinState(acts, st.pos[rule := |st.actions|]))
    else if !rule.IsLeaf() then Failure(NonLeafValueRule(rule))
    else if p.parentRule.None? || p.parentRule.value !in st.pos then Failure(UnknownParent(p.parentRule))
    else
      var parentT := st.pos[p.parentRule.value];
      var toks := ctx.subTokens(TerminalString(rule.value));
      var acts := st.actions + ValueRun(toks, query, ctx.vocab, ctx.maxQueryLength, rule, p.parentRule, parentT);
      assert acts[..|st.actions|] == st.actions;
      Success(LinState(acts, st.pos))
  }

  /** A loop iteration keeps the invariant. */
  lemma StepWellFormed(st: LinState, p: Production, query: seq<string>, ctx: Context)
    requires WellFormed(st)
    ensures Step(st, p, query, ctx).Success? ==> WellFormed(Step(st, p, query, ctx).value)
  {
    if Step(st, p, query, ctx).Success? {
      StepPointsBack(st, p, query, ctx);
      StepKeepsPositions(st, p, query, ctx);
      StepRecordsRules(st, p, query, ctx);
    }
  }

  /** After a step every action, old or new, still points back to the
      latest APPLY_RULE of its parent rule before it. */
  lemma StepPointsBack(st: LinState, p: Production, query: seq<string>, ctx: Context)
    requires WellFormed(st) && Step(st, p, query, ctx).Success?
    ensures var st' := Step(st, p, query, ctx).value;
            forall k :: 0 <= k < |st'.actions| ==> PointsBack(st'.actions, k)
  {
    var st' := Step(st, p, query, ctx).value;
    var n := |st.actions|;
    forall k | 0 <= k < |st'.actions|
      ensures PointsBack(st'.actions, k)
    {
      if k < n {
        assert st'.actions[k] == st.actions[k];
        assert PointsBack(st.actions, k);
        if st'.actions[k].parentRule.Some? {
          var t := st'.actions[k].parentT;
          assert st'.actions[t] == st.actions[t];
          forall j | t < j < k
            ensures !(st'.actions[j].ApplyRule? && st'.actions[j].rule == st'.actions[k].parentRule.value)
          {
            assert st'.actions[j] == st.actions[j];
          }
        }
      } else if p.parentRule.Some? {
        var pr := p.parentRule.value;
        var t := st.pos[pr];
        assert st'.actions[t] == st.actions[t];
        forall j | t < j < k
          ensures !(st'.actions[j].ApplyRule? && st'.actions[j].rule == pr)
        {
          if j < n {
            assert st'.actions[j] == st.actions[j];
          }
        }
      }
    }
  }

  /** After a step the position map still sends each rule to its latest
      APPLY_RULE. */
  lemma StepKeepsPositions(st: LinState, p: Production, query: seq<string>, ctx: Context)
    requires WellFormed(st) && Step(st, p, query, ctx).Success?
    ensures var st' := Step(st, p, query, ctx).value;
            forall q :: q in st'.pos ==>
              && st'.pos[q] < |st'.actions|
              && st'.actions[st'.pos[q]].ApplyRule? && st'.actions[st'.pos[q]].rule == q
              && forall j :: st'.pos[q] < j < |st'.actions| ==> !(st'.actions[j].ApplyRule? && st'.actions[j].rule == q)
  {
    var st' := Step(st, p, query, ctx).value;
    var n := |st.actions|;
    forall q | q in st'.pos
      ensures st'.pos[q] < |st'.actions|
      ensures st'.actions[st'.pos[q]].ApplyRule? && st'.actions[st'.pos[q]].rule == q
      ensures forall j :: st'.pos[q] < j < |st'.actions| ==> !(st'.actions[j].ApplyRule? && st'.actions[j].rule == q)
    {
      if q in st.pos && st'.pos[q] == st.pos[q] {
        assert st'.actions[st.pos[q]] == st.actions[st.pos[q]];
        forall j | st'.pos[q] < j < |st'.actions|
          ensures !(st'.actions[j].ApplyRule? && st'.actions[j].rule == q)
        {
          if j < n {
            assert st'.actions[j] == st.actions[j];
          }
        }
      }
    }
  }

  /** After a step every APPLY_RULE's rule is in the position map. */
  lemma StepRecordsRules(st: LinState, p: Production, query: seq<string>, ctx: Context)
    requires WellFormed(st) && Step(st, p, query, ctx).Success?
    ensures var st' := Step(st, p, query, ctx).value;
            forall k :: 0 <= k < |st'.actions| && st'.actions[k].ApplyRule? ==> st'.actions[k].rule in st'.pos
  {
    var st' := Step(st, p, query, ctx).value;
    var n := |st.actions|;
    forall k | 0 <= k < |st'.actions| && st'.actions[k].ApplyRule?
      ensures st'.actions[k].rule in st'.pos
    {
      if k < n {
        assert st'.actions[k] == st.actions[k];
      }
    }
  }

  /** `rule_pos_map` starts empty, the action list too. */
  const Start: LinState := LinState([], map[])

  /** The number of actions a production list yields: one per structural
      rule, sub-tokens plus one per value rule. */
  function ActionCount(ps: seq<Production>, ctx: Context): nat
  {
    if |ps| == 0 then 0
    else
      var p := ps[|ps| - 1];
      ActionCount(ps[..|ps| - 1], ctx)
        + if ctx.grammar.IsValueNode(p.rule.parent)
          then |ctx.subTokens(TerminalString(p.rule.value))| + 1
          else 1
  }

  /** The structural rules of a production list, in order. */
  function StructuralRules(ps: seq<Production>, g: Grammar): seq<Rule>
  {
    if |ps| == 0 then []
    else
      var p := ps[|ps| - 1];
      StructuralRules(ps[..|ps| - 1], g) + if g.IsValueNode(p.rule.parent) then [] else [p.rule]
  }

  /** The rules of the APPLY_RULE actions of a sequence, in order. */
  function AppliedRules(acts: seq<Action>): seq<Rule>
  {
    if |acts| == 0 then []
    else AppliedRules(acts[..|acts| - 1]) + if acts[|acts| - 1].ApplyRule? then [acts[|acts| - 1].rule] else []
  }

  lemma {:induction false} AppliedRulesAppend(a: seq<Action>, b: seq<Action>)
    ensures AppliedRules(a + b) == AppliedRules(a) + AppliedRules(b)
    decreases |b|
  {
    if |b| == 0 {
      assert a + b == a;
    } else {
      AppliedRulesAppend(a, b[..|b| - 1]);
      assert (a + b)[..|a + b| - 1] == a + b[..|b| - 1];
    }
  }

  lemma {:induction false} AppliedRulesNone(b: seq<Action>)
    requires forall i :: 0 <= i < |b| ==> !b[i].ApplyRule?
    ensures AppliedRules(b) == []
    decreases |b|
  {
    if |b| > 0 {
      AppliedRulesNone(b[..|b| - 1]);
    }
  }

  /** The loop of `load_output` over one production list, as a left fold. A
      successful run keeps the invariant, yields as many actions as
      `ActionCount` says (at least one per production), and applies the
      structural rules in their original order. */
  function Run(ps: seq<Production>, query: seq<string>, ctx: Context): (r: Result<LinState, LinError>)
    ensures r.Success? ==> WellFormed(r.value)
    ensures r.Success? ==> |r.value.actions| == ActionCount(ps, ctx) >= |ps|
    ensures r.Success? ==> AppliedRules(r.value.actions) == StructuralRules(ps, ctx.grammar)
    decreases |ps|
  {
    if |ps| == 0 then Success(Start)
    else
      match Run(ps[..|ps| - 1], query, ctx)
      case Failure(e) => Failure(e)
      case Success(st) =>
        var p := ps[|ps| - 1];
        var r := Step(st, p, query, ctx);
        StepWellFormed(st, p, query, ctx);
        if r.Success? then
          AppliedRulesStep(st, p, query, ctx);
          r
        else r
  }

  lemma AppliedRulesStep(st: LinState, p: Production, query: seq<string>, ctx: Context)
    requires Step(st, p, query, ctx).Success?
    ensures AppliedRules(Step(st, p, query, ctx).value.actions)
              == AppliedRules(st.actions) + if ctx.grammar.IsValueNode(p.rule.parent) then [] else [p.rule]
  {
    var acts := Step(st, p, query, ctx).value.actions;
    var n := |st.actions|;
    assert acts == st.actions + acts[n..];
    AppliedRulesAppend(st.actions, acts[n..]);
    if ctx.grammar.IsValueNode(p.rule.parent) {
      AppliedRulesNone(acts[n..]);
    } else {
      assert acts[n..] == [] + [acts[n]];
    }
  }

  /** The actions of one code tree. */
  function Linearize(ps: seq<Production>, query: seq<string>, ctx: Context): (r: Result<seq<Action>, LinError>)
    ensures r.Success? ==> (|r.value| == 0 <==> |ps| == 0)
    ensures r.Success? ==> forall k :: 0 <= k < |r.value| ==> PointsBack(r.value, k)
  {
    match Run(ps, query, ctx)
    case Failure(e) => Failure(e)
    case Success(st) => Success(st.actions)
  }

  /** How many of the first `n` production lists are non-empty. */
  function NonEmptyCount(trees: seq<seq<Production>>, n: nat): nat
    requires n <= |trees|
  {
    if n == 0 then 0 else NonEmptyCount(trees, n - 1) + if |trees[n - 1]| > 0 then 1 else 0
  }

  /** How many of the outcomes are non-empty action lists. */
  function NonEmptyResults(results: seq<Result<seq<Action>, LinError>>): nat
  {
    if |results| == 0 then 0
    else
      var last := results[|results| - 1];
      NonEmptyResults(results[..|results| - 1]) + if last.Success? && |last.value| > 0 then 1 else 0
  }

  /** The non-empty action lists among the outcomes, in order: a filter
      read from the front, independent of `Collect`, which builds its result
      from the back as the loop appends. */
  function KeptOf(results: seq<Result<seq<Action>, LinError>>): seq<seq<Action>>
  {
    if |results| == 0 then []
    else
      (if results[0].Success? && |results[0].value| > 0 then [results[0].value] else [])
        + KeptOf(results[1..])
  }

  /** Filtering one more outcome at the back appends it when it is kept. */
  lemma {:induction false} KeptOfSnoc(results: seq<Result<seq<Action>, LinError>>, last: Result<seq<Action>, LinError>)
    ensures KeptOf(results + [last])
            == KeptOf(results) + (if last.Success? && |last.value| > 0 then [last.value] else [])
  {
    if |results| > 0 {
      assert (results + [last])[1..] == results[1..] + [last];
      KeptOfSnoc(results[1..], last);
    } else {
      assert [last][1..] == [];
    }
  }

  lemma KeptOfLast(results: seq<Result<seq<Action>, LinError>>)
    requires |results| > 0
    ensures var last := results[|results| - 1];
            KeptOf(results)
            == KeptOf(results[..|results| - 1]) + (if last.Success? && |last.value| > 0 then [last.value] else [])
  {
    KeptOfSnoc(results[..|results| - 1], results[|results| - 1]);
    assert results[..|results| - 1] + [results[|results| - 1]] == results;
  }

  /** The outer loop of `load_output` over the per-tree outcomes: the first
      failure aborts, empty action lists are skipped, the others are kept
      in order. */
  function Collect(results: seq<Result<seq<Action>, LinError>>): (r: Result<seq<seq<Action>>, LinError>)
    ensures r.Success? <==> forall i :: 0 <= i < |results| ==> results[i].Success?
    ensures r.Failure? ==>
              exists i :: 0 <= i < |results| && results[i] == Failure(r.error)
                && forall j :: 0 <= j < i ==> results[j].Success?
    ensures r.Success? ==>
              && |r.value| == NonEmptyResults(results)
              && (forall i :: 0 <= i < |r.value| ==> |r.value[i]| > 0)
              && (forall i :: 0 <= i < |results| && |results[i].value| > 0 ==> results[i].value in r.value)
              && (forall s :: s in r.value ==> exists i :: 0 <= i < |results| && results[i] == Success(s))
  {
    if |results| == 0 then Success([])
    else
      var init := results[..|results| - 1];
      assert forall i :: 0 <= i < |init| ==> init[i] == results[i];
      match Collect(init)
      case Failure(e) => Failure(e)
      case Success(kept) =>
        match results[|results| - 1]
        case Failure(e) => Failure(e)
        case Success(acts) =>
          var res := if |acts| == 0 then kept else kept + [acts];
          assert forall s :: s in kept ==> s in res;
          Success(res)
  }

  /** `Collect` keeps the non-empty action lists in their original order,
      each as often as it occurs. */
  lemma {:induction false} CollectKeepsOrder(results: seq<Result<seq<Action>, LinError>>)
    ensures Collect(results).Success? ==> Collect(results).value == KeptOf(results)
  {
    if |results| > 0 && Collect(results).Success? {
      var init := results[..|results| - 1];
      assert forall i :: 0 <= i < |init| ==> init[i] == results[i];
      assert Collect(init).Success?;
      CollectKeepsOrder(init);
      KeptOfLast(results);
    }
  }

  /** The outcomes of linearizing the first `n` trees. */
  function Outcomes(trees: seq<seq<Production>>, queries: seq<seq<string>>, n: nat, ctx: Context): (rs: seq<Result<seq<Action>, LinError>>)
    requires n <= |trees| && n <= |queries|
    ensures |rs| == n
    ensures forall i :: 0 <= i < n ==> rs[i] == Linearize(trees[i], queries[i], ctx)
  {
    seq(n, i requires 0 <= i < n => Linearize(trees[i], queries[i], ctx))
  }

  /** A successful linearization is empty exactly when its production list
      is, so the two counts agree. */
  lemma {:induction false} NonEmptyCountsAgree(trees: seq<seq<Production>>, queries: seq<seq<string>>, n: nat, ctx: Context)
    requires n <= |trees| && n <= |queries|
    requires forall i :: 0 <= i < n ==> Linearize(trees[i], queries[i], ctx).Success?
    ensures NonEmptyResults(Outcomes(trees, queries, n, ctx)) == NonEmptyCount(trees, n)
  {
    if n > 0 {
      NonEmptyCountsAgree(trees, queries, n - 1, ctx);
      var rs := Outcomes(trees, queries, n, ctx);
      assert rs[..n - 1] == Outcomes(trees, queries, n - 1, ctx);
    }
  }

  /** `load_output`: code trees are paired with query token lists as `zip`
      pairs them (the shorter list bounds the pairing), each pair is
      linearized, empty action lists are skipped, and the first failure
      aborts the whole load. The dataset size is the number of non-empty
      production lists. */
  function LoadOutput(trees: seq<seq<Production>>, queries: seq<seq<string>>, ctx: Context): (r: Result<seq<seq<Action>>, LinError>)
    ensures r.Success? <==>
              forall i :: 0 <= i < |trees| && i < |queries| ==> Linearize(trees[i], queries[i], ctx).Success?
    ensures r.Success? ==> |r.value| == NonEmptyCount(trees, if |trees| < |queries| then |trees| else |queries|)
    ensures r.Success? ==>
              && (forall i :: 0 <= i < |r.value| ==> |r.value[i]| > 0)
              && (forall i :: 0 <= i < |trees| && i < |queries| && |trees[i]| > 0 ==>
                    Linearize(trees[i], queries[i], ctx).value in r.value)
              && (forall s :: s in r.value ==>
                    exists i :: 0 <= i < |trees| && i < |queries| && Linearize(trees[i], queries[i], ctx) == Success(s))
  {
    var n := if |trees| < |queries| then |trees| else |queries|;
    var rs := Outcomes(trees, queries, n, ctx);
    var r := Collect(rs);
    if r.Success? then
      NonEmptyCountsAgree(trees, queries, n, ctx);
      r
    else r
  }

  /** The loaded action lists are the non-empty linearizations in the order
      of the trees, each as often as it occurs. */
  lemma LoadOutputKeepsOrder(trees: seq<seq<Production>>, queries: seq<seq<string>>, ctx: Context)
    ensures var r := LoadOutput(trees, queries, ctx);
            r.Success? ==>
              r.value == KeptOf(Outcomes(trees, queries, if |trees| < |queries| then |trees| else |queries|, ctx))
  {
    var n := if |trees| < |queries| then |trees| else |queries|;
    CollectKeepsOrder(Outcomes(trees, queries, n, ctx));
  }
}
