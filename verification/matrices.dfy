/** The matrix encoder of `Dataset.init_data_matrices` and the sentence
    padding of `Dataset.fill_pad`. The five numpy arrays become nested
    sequences: `[size][maxActions]` for node types, parent rules and parent
    positions, `[size][maxActions][3]` for the action slots and their
    activation flags. */
module Matrices {
  import opened Results
  import opened Linearize

  /** The lookups the encoder performs on an action are all defined: the
      rule id of an APPLY_RULE, the node-type id of its rule's parent type
      and the rule id of its parent rule. */
  predicate Encodable(a: Action, g: Grammar)
  {
    && (a.ApplyRule? ==> a.rule in g.ruleToId)
    && a.rule.parent in g.nodeTypeId
    && (a.parentRule.Some? ==> a.parentRule.value in g.ruleToId)
  }

  /** Slot 0 carries a rule id, slot 1 a token id, slot 2 a source index. */
  function ActionSlots(a: Action, g: Grammar, vocab: TerminalVocab): (s: seq<int>)
    requires Encodable(a, g)
    ensures |s| == 3
  {
    match a
    case ApplyRule(rule, _, _) => [g.ruleToId[rule], 0, 0]
    case GenToken(lit, _, _, _) => [0, vocab.Lookup(lit), 0]
    case CopyToken(_, _, _, _, src) => [0, 0, src]
    case GenCopyToken(lit, _, _, _, src) => [0, vocab.Lookup(lit), src]
  }

  /** The activation flags of the three slots. */
  function Activation(a: Action): (f: seq<int>)
    ensures |f| == 3
  {
    match a
    case ApplyRule(_, _, _) => [1, 0, 0]
    case GenToken(_, _, _, _) => [0, 1, 0]
    case CopyToken(_, _, _, _, _) => [0, 0, 1]
    case GenCopyToken(_, _, _, _, _) => [0, 1, 1]
  }

  datatype Kind = KApplyRule | KGenToken | KCopyToken | KGenCopyToken

  function KindOf(a: Action): Kind
  {
    match a
    case ApplyRule(_, _, _) => KApplyRule
    case GenToken(_, _, _, _) => KGenToken
    case CopyToken(_, _, _, _, _) => KCopyToken
    case GenCopyToken(_, _, _, _, _) => KGenCopyToken
  }

  /** Reads an activation triple back: the action kind, or `None` for an
      all-zero (padding) timestep. */
  function KindOfFlags(f: seq<int>): Option<Kind>
    requires |f| == 3
  {
    if f == [1, 0, 0] then Some(KApplyRule)
    else if f == [0, 1, 0] then Some(KGenToken)
    else if f == [0, 0, 1] then Some(KCopyToken)
    else if f == [0, 1, 1] then Some(KGenCopyToken)
    else None
  }

  /** The activation flags determine the action kind: APPLY_RULE uses slot 0
      alone, GEN_TOKEN slot 1 alone, COPY_TOKEN slot 2 alone and
      GEN_COPY_TOKEN slots 1 and 2; no kind leaves all three off. */
  lemma ActivationDecodes(a: Action)
    ensures KindOfFlags(Activation(a)) == Some(KindOf(a))
    ensures Activation(a)[0] == 1 <==> a.ApplyRule?
    ensures Activation(a)[1] == 1 <==> a.GenToken? || a.GenCopyToken?
    ensures Activation(a)[2] == 1 <==> a.CopyToken? || a.GenCopyToken?
    ensures Activation(a) != [0, 0, 0]
  {
  }

  const ZeroSlots: seq<int> := [0, 0, 0]

  /** The number of timesteps encoded for one example. */
  function Truncated(acts: seq<Action>, maxActions: nat): (n: nat)
    ensures n <= |acts| && n <= maxActions
    ensures n == |acts| || n == maxActions
  {
    if |acts| < maxActions then |acts| else maxActions
  }

  /** Every action in the encoded prefix of every example admits the lookups. */
  predicate BatchEncodable(examples: seq<seq<Action>>, maxActions: nat, g: Grammar)
  {
    forall e, t :: 0 <= e < |examples| && 0 <= t < |examples[e]| && t < maxActions ==> Encodable(examples[e][t], g)
  }

  /** The two assertions of the encoder: an example whose truncated action
      list is empty, and an action without a parent rule at a timestep
      other than 0. */
  datatype EncodeError = EmptyExample(eid: nat) | RootlessAction(eid: nat, t: nat)

  /** The assertion an example trips, if any. */
  function RowError(acts: seq<Action>, maxActions: nat, eid: nat): (r: Option<EncodeError>)
    ensures r.None? <==>
              Truncated(acts, maxActions) > 0 &&
              forall t :: 0 < t < Truncated(acts, maxActions) ==> acts[t].parentRule.Some?
  {
    if Truncated(acts, maxActions) == 0 then Some(EmptyExample(eid))
    else FirstRootless(acts, 1, Truncated(acts, maxActions), eid)
  }

  function FirstRootless(acts: seq<Action>, from: nat, upto: nat, eid: nat): (r: Option<EncodeError>)
    requires upto <= |acts|
    ensures r.None? <==> forall t :: from <= t < upto ==> acts[t].parentRule.Some?
    decreases upto - from
  {
    if from >= upto then None
    else if acts[from].parentRule.None? then Some(RootlessAction(eid, from))
    else FirstRootless(acts, from + 1, upto, eid)
  }

  /** The first error over the examples, in order. */
  function BatchError(examples: seq<seq<Action>>, maxActions: nat, from: nat): (r: Option<EncodeError>)
    ensures r.None? <==> forall e :: from <= e < |examples| ==> RowError(examples[e], maxActions, e).None?
    decreases |examples| - from
  {
    if from >= |examples| then None
    else match RowError(examples[from], maxActions, from)
      case Some(err) => Some(err)
      case None => BatchError(examples, maxActions, from + 1)
  }

  /** The five arrays of the encoder. */
  datatype Batch = Batch(
    nodeSeq: seq<seq<int>>,
    parRuleSeq: seq<seq<int>>,
    parTSeq: seq<seq<int>>,
    actionSeq: seq<seq<seq<int>>>,
    actionSeqType: seq<seq<seq<int>>>)

  function ParentRuleId(a: Action, g: Grammar): int
    requires Encodable(a, g)
  {
    match a.parentRule
    case None => -1
    case Some(pr) => g.ruleToId[pr]
  }

  /** One example's row of an `[maxActions]` array: the value at each encoded
      timestep, zero beyond. */
  function Row(acts: seq<Action>, maxActions: nat, cell: Action -> int): (row: seq<int>)
    ensures |row| == maxActions
    ensures forall t :: 0 <= t < maxActions ==>
              row[t] == if t < Truncated(acts, maxActions) then cell(acts[t]) else 0
  {
    seq(maxActions, t requires 0 <= t < maxActions =>
      if t < Truncated(acts, maxActions) then cell(acts[t]) else 0)
  }

  /** One example's row of an `[maxActions][3]` array. */
  function Row3(acts: seq<Action>, maxActions: nat, cell: Action -> seq<int>): (row: seq<seq<int>>)
    ensures |row| == maxActions
    ensures forall t :: 0 <= t < maxActions ==>
              row[t] == if t < Truncated(acts, maxActions) then cell(acts[t]) else ZeroSlots
  {
    seq(maxActions, t requires 0 <= t < maxActions =>
      if t < Truncated(acts, maxActions) then cell(acts[t]) else ZeroSlots)
  }

  function NodeCell(g: Grammar): Action -> int
  {
    a => if Encodable(a, g) then g.nodeTypeId[a.rule.parent] else 0
  }

  function ParentRuleCell(g: Grammar): Action -> int
  {
    a => if Encodable(a, g) then ParentRuleId(a, g) else 0
  }

  function SlotsCell(g: Grammar, vocab: TerminalVocab): Action -> seq<int>
  {
    a => if Encodable(a, g) then ActionSlots(a, g, vocab) else ZeroSlots
  }

  /** `init_data_matrices` over the kept action sequences: each sequence is
      cut to `maxActions` timesteps and written into zero-initialised arrays;
      an assertion of the encoder fails the whole call. */
  function InitDataMatrices(examples: seq<seq<Action>>, maxActions: nat, g: Grammar, vocab: TerminalVocab): (r: Result<Batch, EncodeError>)
    requires BatchEncodable(examples, maxActions, g)
    ensures r.Success? <==>
              forall e :: 0 <= e < |examples| ==>
                && Truncated(examples[e], maxActions) > 0
                && forall t :: 0 < t < Truncated(examples[e], maxActions) ==> examples[e][t].parentRule.Some?
    ensures r.Success? ==> Shaped(r.value, |examples|, maxActions)
    ensures r.Success? ==>
              forall e, t :: 0 <= e < |examples| && Truncated(examples[e], maxActions) <= t < maxActions ==>
                && r.value.nodeSeq[e][t] == 0 && r.value.parRuleSeq[e][t] == 0 && r.value.parTSeq[e][t] == 0
                && r.value.actionSeq[e][t] == ZeroSlots && r.value.actionSeqType[e][t] == ZeroSlots
    ensures r.Success? ==>
              forall e, t :: 0 <= e < |examples| && 0 <= t < Truncated(examples[e], maxActions) ==>
                var a := examples[e][t];
                && r.value.actionSeqType[e][t] == Activation(a)
                && r.value.actionSeq[e][t] == ActionSlots(a, g, vocab)
                && r.value.nodeSeq[e][t] == g.nodeTypeId[a.rule.parent]
                && r.value.parTSeq[e][t] == a.parentT
                && (a.parentRule.None? ==> t == 0 && r.value.parRuleSeq[e][t] == -1)
                && (a.parentRule.Some? ==> r.value.parRuleSeq[e][t] == g.ruleToId[a.parentRule.value])
  {
    match BatchError(examples, maxActions, 0)
    case Some(err) => Failure(err)
    case None =>
      Success(Batch(
        seq(|examples|, e requires 0 <= e < |examples| => Row(examples[e], maxActions, NodeCell(g))),
        seq(|examples|, e requires 0 <= e < |examples| => Row(examples[e], maxActions, ParentRuleCell(g))),
        seq(|examples|, e requires 0 <= e < |examples| => Row(examples[e], maxActions, (a: Action) => a.parentT)),
        seq(|examples|, e requires 0 <= e < |examples| => Row3(examples[e], maxActions, SlotsCell(g, vocab))),
        seq(|examples|, e requires 0 <= e < |examples| => Row3(examples[e], maxActions, Activation))))
  }

  /** The fixed shapes `[size][maxActions]` and `[size][maxActions][3]`. */
  ghost predicate Shaped(b: Batch, size: nat, maxActions: nat)
  {
    && |b.nodeSeq| == size && |b.parRuleSeq| == size && |b.parTSeq| == size
    && |b.actionSeq| == size && |b.actionSeqType| == size
    && (forall e :: 0 <= e < size ==>
          && |b.nodeSeq[e]| == maxActions && |b.parRuleSeq[e]| == maxActions && |b.parTSeq[e]| == maxActions
          && |b.actionSeq[e]| == maxActions && |b.actionSeqType[e]| == maxActions)
    && (forall e, t :: 0 <= e < size && 0 <= t < maxActions ==>
          |b.actionSeq[e][t]| == 3 && |b.actionSeqType[e][t]| == 3)
  }

  /** A timestep of an encoded example is active in some slot exactly when it
      lies within the example's truncated length, so the activation array
      alone recovers how many actions were encoded and of which kinds. */
  lemma ActiveExactlyWithinLength(examples: seq<seq<Action>>, maxActions: nat, g: Grammar, vocab: TerminalVocab, e: nat, t: nat)
    requires BatchEncodable(examples, maxActions, g)
    requires InitDataMatrices(examples, maxActions, g, vocab).Success?
    requires e < |examples| && t < maxActions
    ensures var f := InitDataMatrices(examples, maxActions, g, vocab).value.actionSeqType[e][t];
            && (f != ZeroSlots <==> t < Truncated(examples[e], maxActions))
            && (t < Truncated(examples[e], maxActions) ==> KindOfFlags(f) == Some(KindOf(examples[e][t])))
            && (t >= Truncated(examples[e], maxActions) ==> KindOfFlags(f).None?)
  {
    if t < Truncated(examples[e], maxActions) {
      ActivationDecodes(examples[e][t]);
    }
  }

  /** `fill_pad`: a sentence shorter than the tree is right-padded with the
      pad id up to the tree size; a longer one is returned unchanged. */
  function FillPad(sentence: seq<int>, treeSize: nat, pad: int): (r: seq<int>)
    ensures |r| == if |sentence| < treeSize then treeSize else |sentence|
    ensures r[..|sentence|] == sentence
    ensures forall i :: |sentence| <= i < |r| ==> r[i] == pad
  {
    if |sentence| < treeSize then sentence + seq(treeSize - |sentence|, _ => pad) else sentence
  }

  /** Padding twice to the same size pads once. */
  lemma FillPadIdempotent(sentence: seq<int>, treeSize: nat, pad: int)
    ensures FillPad(FillPad(sentence, treeSize, pad), treeSize, pad) == FillPad(sentence, treeSize, pad)
  {
  }
}
