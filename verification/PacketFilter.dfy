/** Network security group rules (`apply_nsg`) compiled to a first-match packet filter chain. */
module PacketFilter {
  import opened Prelude

  /** A prefix: the addresses that agree with `network` on the first `bits` bits. */
  datatype Prefix = Prefix(network: Address, bits: nat) {
    predicate Covers(a: Address) {
      bits <= 32 && a / Pow2(32 - bits) == network / Pow2(32 - bits)
    }
  }

  /** The CIDR parser is a library routine; any total parser is allowed that knows the
      text of the default rule. */
  type CidrParser = string -> Option<Prefix>

  const ANY: string := "0.0.0.0/0"

  ghost predicate KnowsAny(parse: CidrParser) {
    parse("0.0.0.0/0") == Some(Prefix(0, 0))
  }

  datatype Verdict = Accept | Drop

  datatype ChainRule = ChainRule(src: Prefix, dst: Prefix, verdict: Verdict) {
    predicate Matches(s: Address, d: Address) {
      src.Covers(s) && dst.Covers(d)
    }
  }

  /** The kernel's reading of a chain: the first matching rule decides. */
  function FirstMatch(chain: seq<ChainRule>, s: Address, d: Address): Option<Verdict> {
    if chain == [] then None
    else if chain[0].Matches(s, d) then Some(chain[0].verdict)
    else FirstMatch(chain[1..], s, d)
  }

  /** The action text of a rule; a text other than the two known ones is skipped. */
  datatype Action = Allow | Deny | Other(text: string)

  datatype NsgRule = NsgRule(name: string, action: Action, srcCidrs: seq<string>, dstCidrs: seq<string>, priority: nat)

  // ---------------------------------------------------------------------
  // Compilation
  // ---------------------------------------------------------------------

  /** One netlink batch: a rule still in text form. */
  datatype Batch = Batch(src: string, dst: string, verdict: Verdict)

  function VerdictOf(action: Action): Option<Verdict> {
    match action
    case Deny => Some(Drop)
    case Allow => Some(Accept)
    case Other(_) => None
  }

  function RowBatches(src: string, dsts: seq<string>, v: Verdict): (r: seq<Batch>)
    ensures |r| == |dsts|
    ensures forall j | 0 <= j < |dsts| :: r[j] == Batch(src, dsts[j], v)
  {
    seq(|dsts|, j requires 0 <= j < |dsts| => Batch(src, dsts[j], v))
  }

  /** The source times destination expansion of one rule. */
  function Expand(srcs: seq<string>, dsts: seq<string>, v: Verdict): seq<Batch> {
    if srcs == [] then [] else RowBatches(srcs[0], dsts, v) + Expand(srcs[1..], dsts, v)
  }

  function RuleBatches(r: NsgRule): seq<Batch> {
    match VerdictOf(r.action)
    case Some(v) => Expand(r.srcCidrs, r.dstCidrs, v)
    case None => []
  }

  function AllBatches(rules: seq<NsgRule>): seq<Batch> {
    if rules == [] then [] else RuleBatches(rules[0]) + AllBatches(rules[1..])
  }

  /** Insertion in front of the first rule that is not smaller: a stable sort by priority. */
  function Insert(r: NsgRule, sorted: seq<NsgRule>): seq<NsgRule> {
    if sorted == [] || r.priority <= sorted[0].priority then [r] + sorted
    else [sorted[0]] + Insert(r, sorted[1..])
  }

  function Sort(rules: seq<NsgRule>): seq<NsgRule> {
    if rules == [] then [] else Insert(rules[0], Sort(rules[1..]))
  }

  /** Everything `apply_nsg` sends after the reset, in order. */
  function Plan(rules: seq<NsgRule>): seq<Batch> {
    AllBatches(Sort(rules)) + [Batch(ANY, ANY, Drop)]
  }

  predicate Parses(parse: CidrParser, b: Batch) {
    parse(b.src).Some? && parse(b.dst).Some?
  }

  predicate AllParse(parse: CidrParser, batches: seq<Batch>) {
    forall b | b in batches :: Parses(parse, b)
  }

  function Install(parse: CidrParser, batches: seq<Batch>): (r: seq<ChainRule>)
    requires AllParse(parse, batches)
    ensures |r| == |batches|
  {
    seq(|batches|, i requires 0 <= i < |batches| =>
      assert batches[i] in batches;
      ChainRule(parse(batches[i].src).value, parse(batches[i].dst).value, batches[i].verdict))
  }

  function RuleOf(parse: CidrParser, b: Batch): ChainRule
    requires Parses(parse, b)
  {
    ChainRule(parse(b.src).value, parse(b.dst).value, b.verdict)
  }

  // ---------------------------------------------------------------------
  // Sending
  // ---------------------------------------------------------------------

  /** What becomes of a batch: the kernel takes it, or answers with a code that `send` reports as success
      (no entry, busy, exists), or answers with any other code. */
  datatype Answer = Installed | Ignored | Refused

  /** Batch j parses and is not refused, so `send` reports success. */
  predicate Passes(parse: CidrParser, plan: seq<Batch>, answers: nat -> Answer, j: nat)
    requires j < |plan|
  {
    Parses(parse, plan[j]) && answers(j) != Refused
  }

  /** Batch j has become a rule of the chain. */
  predicate Takes(parse: CidrParser, plan: seq<Batch>, answers: nat -> Answer, j: nat)
    requires j < |plan|
  {
    Parses(parse, plan[j]) && answers(j) == Installed
  }

  /** The rules that the first n batches leave in the chain. */
  function Kept(parse: CidrParser, plan: seq<Batch>, answers: nat -> Answer, n: nat): seq<ChainRule>
    requires n <= |plan|
  {
    if n == 0 then []
    else Kept(parse, plan, answers, n - 1)
         + if Takes(parse, plan, answers, n - 1) then [RuleOf(parse, plan[n - 1])] else []
  }

  /** The first n batches were reported as sent, and this is the chain they leave. */
  ghost predicate Sent(base: seq<ChainRule>, chain: seq<ChainRule>, plan: seq<Batch>, n: nat, parse: CidrParser,
                       answers: nat -> Answer)
  {
    n <= |plan| && chain == base + Kept(parse, plan, answers, n)
    && forall j | 0 <= j < n :: Passes(parse, plan, answers, j)
  }

  /** Sending went on to the end of the plan, or stopped at the first batch that does not pass. */
  ghost predicate StoppedAt(plan: seq<Batch>, k: nat, parse: CidrParser, answers: nat -> Answer, ok: bool)
    requires k <= |plan|
  {
    if ok then k == |plan| else k < |plan| && !Passes(parse, plan, answers, k)
  }

  ghost predicate InstalledUpTo(base: seq<ChainRule>, chain: seq<ChainRule>, plan: seq<Batch>,
                                parse: CidrParser, answers: nat -> Answer, ok: bool)
  {
    exists k: nat :: Sent(base, chain, plan, k, parse, answers) && StoppedAt(plan, k, parse, answers, ok)
  }

  /** A rule for a chain that does not exist is answered with a code that `send` ignores. */
  function Possible(present: bool, answers: nat -> Answer): (r: nat -> Answer)
    ensures forall j: nat :: r(j) == Installed <==> present && answers(j) == Installed
    ensures forall j: nat :: r(j) == Refused <==> answers(j) == Refused
  {
    if present then answers else (j: nat) => if answers(j) == Installed then Ignored else answers(j)
  }

  /** The chain's existence and contents after the delete and the add of a reset. */
  function AfterDelete(present: bool, chain: seq<ChainRule>, del: Answer): (bool, seq<ChainRule>) {
    if del == Installed then (false, []) else (present, chain)
  }

  function AfterReset(present: bool, chain: seq<ChainRule>, del: Answer, add: Answer): (bool, seq<ChainRule>) {
    var deleted := AfterDelete(present, chain, del);
    if del != Refused && add == Installed then (true, deleted.1) else deleted
  }

  /** The "nsg-rules" chain of the filter table; a chain that is not present has no rules. */
  class NftEngine {
    var present: bool
    var chain: seq<ChainRule>

    constructor ()
      ensures !present && chain == []
    {
      present, chain := false, [];
    }

    /** Delete the chain, then add it. Either may be ignored: a chain that could not be deleted keeps its rules,
        and one that could not be added again is missing. */
    method ResetNsgRules(del: Answer, add: Answer) returns (ok: bool)
      modifies this
      ensures ok <==> del != Refused && add != Refused
      ensures (present, chain) == AfterReset(old(present), old(chain), del, add)
      ensures chain == if del == Installed then [] else old(chain)
      ensures present <==> (del != Installed && old(present)) || (del != Refused && add == Installed)
    {
      if del == Installed {
        present, chain := false, [];
      }
      if del == Refused { return false; }
      if add == Installed {
        present := true;
      }
      return add != Refused;
    }

    /** `add_forward_allow` and `add_forward_deny`: parse both prefixes, then append one rule. */
    method AddForward(b: Batch, parse: CidrParser, answer: Answer) returns (ok: bool)
      requires answer == Installed ==> present
      modifies this`chain
      ensures ok == (Parses(parse, b) && answer != Refused)
      ensures chain == old(chain) + if Parses(parse, b) && answer == Installed then [RuleOf(parse, b)] else []
    {
      if !Parses(parse, b) { return false; }
      if answer == Installed {
        chain := chain + [RuleOf(parse, b)];
      }
      return answer != Refused;
    }

    /** One more batch of the plan. */
    method SendBatch(b: Batch, n: nat, parse: CidrParser, answers: nat -> Answer,
                     ghost base: seq<ChainRule>, ghost plan: seq<Batch>)
      returns (ok: bool)
      requires n < |plan| && plan[n] == b && (answers(n) == Installed ==> present)
      requires Sent(base, chain, plan, n, parse, answers)
      modifies this`chain
      ensures ok ==> Sent(base, chain, plan, n + 1, parse, answers)
      ensures !ok ==> InstalledUpTo(base, chain, plan, parse, answers, false)
    {
      ok := AddForward(b, parse, answers(n));
      assert !ok ==> Sent(base, chain, plan, n, parse, answers) && StoppedAt(plan, n, parse, answers, false);
    }

    /** The loop over the destinations of one source; `n` counts the batches sent so far. */
    method SendRow(src: string, dsts: seq<string>, v: Verdict, n: nat, parse: CidrParser, answers: nat -> Answer,
                   ghost base: seq<ChainRule>, ghost plan: seq<Batch>)
      returns (ok: bool, sent: nat)
      requires Sent(base, chain, plan, n, parse, answers) && NeedChain(present, answers)
      requires OccursAt(RowBatches(src, dsts, v), plan, n)
      modifies this`chain
      ensures ok ==> sent == n + |dsts| && Sent(base, chain, plan, sent, parse, answers)
      ensures !ok ==> InstalledUpTo(base, chain, plan, parse, answers, false)
    {
      ok, sent := true, n;
      for d := 0 to |dsts|
        invariant sent == n + d && ok && Sent(base, chain, plan, sent, parse, answers)
      {
        var b := Batch(src, dsts[d], v);
        assert plan[sent] == RowBatches(src, dsts, v)[d] == b;
        ok := SendBatch(b, sent, parse, answers, base, plan);
        if !ok { return; }
        sent := sent + 1;
      }
    }

    /** The nested loops over one rule. */
    method SendRule(srcs: seq<string>, dsts: seq<string>, v: Verdict, n: nat, parse: CidrParser,
                    answers: nat -> Answer, ghost base: seq<ChainRule>, ghost plan: seq<Batch>)
      returns (ok: bool, sent: nat)
      requires Sent(base, chain, plan, n, parse, answers) && NeedChain(present, answers)
      requires OccursAt(Expand(srcs, dsts, v), plan, n)
      modifies this`chain
      ensures ok ==> sent == n + |Expand(srcs, dsts, v)| && Sent(base, chain, plan, sent, parse, answers)
      ensures !ok ==> InstalledUpTo(base, chain, plan, parse, answers, false)
    {
      ok, sent := true, n;
      for a := 0 to |srcs|
        invariant ok && sent == n + a * |dsts| && Sent(base, chain, plan, sent, parse, answers)
      {
        RowOccurs(srcs, dsts, v, a, plan, n);
        ok, sent := SendRow(srcs[a], dsts, v, sent, parse, answers, base, plan);
        if !ok { return; }
        NextRow(n, a, |dsts|);
      }
      ExpandSize(srcs, dsts, v);
    }

    method SendOne(rule: NsgRule, n: nat, parse: CidrParser, answers: nat -> Answer,
                   ghost base: seq<ChainRule>, ghost plan: seq<Batch>)
      returns (ok: bool, sent: nat)
      requires Sent(base, chain, plan, n, parse, answers) && NeedChain(present, answers)
      requires OccursAt(RuleBatches(rule), plan, n)
      modifies this`chain
      ensures ok ==> sent == n + |RuleBatches(rule)| && Sent(base, chain, plan, sent, parse, answers)
      ensures !ok ==> InstalledUpTo(base, chain, plan, parse, answers, false)
    {
      ok, sent := true, n;
      var verdict := VerdictOf(rule.action);
      if verdict.Some? {
        ok, sent := SendRule(rule.srcCidrs, rule.dstCidrs, verdict.value, n, parse, answers, base, plan);
      }
    }

    /** The loop over the sorted rules; a rule that is neither allow nor deny sends nothing. */
    method SendRules(sorted: seq<NsgRule>, parse: CidrParser, answers: nat -> Answer,
                     ghost base: seq<ChainRule>, ghost plan: seq<Batch>)
      returns (ok: bool, sent: nat)
      requires chain == base && OccursAt(AllBatches(sorted), plan, 0) && NeedChain(present, answers)
      modifies this`chain
      ensures ok ==> sent == |AllBatches(sorted)| && Sent(base, chain, plan, sent, parse, answers)
      ensures !ok ==> InstalledUpTo(base, chain, plan, parse, answers, false)
    {
      ok, sent := true, 0;
      for i := 0 to |sorted|
        invariant ok && sent == Start(sorted, i) && Sent(base, chain, plan, sent, parse, answers)
      {
        RuleOccurs(sorted, i, plan);
        ok, sent := SendOne(sorted[i], sent, parse, answers, base, plan);
        if !ok { return; }
      }
      RestOccurs(sorted, |sorted|, plan);
    }

    /** Reset, sort, expand, append, default deny. Stops at the first batch that does not parse or is refused,
        and goes on after an ignored one; `answers(j)` is the kernel's answer to the j-th rule. */
    method ApplyNsg(rules: seq<NsgRule>, parse: CidrParser, del: Answer, add: Answer, answers: nat -> Answer)
      returns (ok: bool)
      modifies this
      ensures var reset := AfterReset(old(present), old(chain), del, add);
              present == reset.0
              && if del == Refused || add == Refused then !ok && chain == reset.1
                 else InstalledUpTo(reset.1, chain, Plan(rules), parse, Possible(reset.0, answers), ok)
    {
      ok := ResetNsgRules(del, add);
      if !ok { return; }
      ghost var base, plan := chain, Plan(rules);
      var actual := Possible(present, answers);
      var sorted := Sort(rules);
      assert plan[0..|AllBatches(sorted)|] == AllBatches(sorted);
      var sent: nat;
      ok, sent := SendRules(sorted, parse, actual, base, plan);
      if ok {
        ok := SendBatch(Batch(ANY, ANY, Drop), sent, parse, actual, base, plan);
        assert ok ==> StoppedAt(plan, sent + 1, parse, actual, true);
      }
    }
  }

  /** Only a chain that exists takes rules. */
  ghost predicate NeedChain(present: bool, answers: nat -> Answer) {
    forall j: nat :: answers(j) == Installed ==> present
  }

  ghost predicate OccursAt(part: seq<Batch>, plan: seq<Batch>, n: nat) {
    n + |part| <= |plan| && plan[n..n + |part|] == part
  }

  lemma OccursSplit(a: seq<Batch>, b: seq<Batch>, plan: seq<Batch>, n: nat)
    requires OccursAt(a + b, plan, n)
    ensures OccursAt(a, plan, n) && OccursAt(b, plan, n + |a|)
  {
    assert plan[n..n + |a|] == plan[n..n + |a + b|][..|a|] == a;
    assert plan[n + |a|..n + |a| + |b|] == plan[n..n + |a + b|][|a|..] == b;
  }

  lemma NextRow(n: nat, a: nat, width: nat)
    ensures n + a * width + width == n + (a + 1) * width
  {
  }

  lemma {:induction false} ExpandSize(srcs: seq<string>, dsts: seq<string>, v: Verdict)
    ensures |Expand(srcs, dsts, v)| == |srcs| * |dsts|
    decreases |srcs|
  {
    if srcs != [] {
      ExpandSize(srcs[1..], dsts, v);
      NextRow(0, |srcs| - 1, |dsts|);
    }
  }

  lemma {:induction false} RowOccurs(srcs: seq<string>, dsts: seq<string>, v: Verdict, a: nat, plan: seq<Batch>, n: nat)
    requires a < |srcs| && OccursAt(Expand(srcs, dsts, v), plan, n)
    ensures OccursAt(RowBatches(srcs[a], dsts, v), plan, n + a * |dsts|)
    decreases a
  {
    OccursSplit(RowBatches(srcs[0], dsts, v), Expand(srcs[1..], dsts, v), plan, n);
    if a > 0 {
      RowOccurs(srcs[1..], dsts, v, a - 1, plan, n + |dsts|);
      NextRow(n, a - 1, |dsts|);
    }
  }

  lemma PartsOccur(whole: seq<Batch>, a: seq<Batch>, b: seq<Batch>, plan: seq<Batch>, n: nat)
    requires whole == a + b && OccursAt(whole, plan, n)
    ensures OccursAt(a, plan, n) && OccursAt(b, plan, n + |a|) && |whole| == |a| + |b|
  {
    OccursSplit(a, b, plan, n);
  }

  /** How many batches the first i rules send. */
  function Start(rules: seq<NsgRule>, i: nat): nat
    requires i <= |rules|
  {
    if i == 0 then 0 else Start(rules, i - 1) + |RuleBatches(rules[i - 1])|
  }

  lemma AllBatchesFrom(rules: seq<NsgRule>, i: nat)
    requires i < |rules|
    ensures AllBatches(rules[i..]) == RuleBatches(rules[i]) + AllBatches(rules[i + 1..])
  {
    assert rules[i..][0] == rules[i] && rules[i..][1..] == rules[i + 1..];
  }

  lemma {:induction false} RestOccurs(rules: seq<NsgRule>, i: nat, plan: seq<Batch>)
    requires i <= |rules| && OccursAt(AllBatches(rules), plan, 0)
    ensures OccursAt(AllBatches(rules[i..]), plan, Start(rules, i))
    ensures Start(rules, i) + |AllBatches(rules[i..])| == |AllBatches(rules)|
    decreases i
  {
    if i == 0 {
      assert rules[0..] == rules;
    } else {
      RestOccurs(rules, i - 1, plan);
      AllBatchesFrom(rules, i - 1);
      PartsOccur(AllBatches(rules[i - 1..]), RuleBatches(rules[i - 1]), AllBatches(rules[i..]), plan,
                 Start(rules, i - 1));
    }
  }

  lemma RuleOccurs(rules: seq<NsgRule>, i: nat, plan: seq<Batch>)
    requires i < |rules| && OccursAt(AllBatches(rules), plan, 0)
    ensures OccursAt(RuleBatches(rules[i]), plan, Start(rules, i))
  {
    RestOccurs(rules, i, plan);
    AllBatchesFrom(rules, i);
    PartsOccur(AllBatches(rules[i..]), RuleBatches(rules[i]), AllBatches(rules[i + 1..]), plan, Start(rules, i));
  }

  // ---------------------------------------------------------------------
  // Chains
  // ---------------------------------------------------------------------

  lemma {:induction false} FirstMatchOfConcat(a: seq<ChainRule>, b: seq<ChainRule>, s: Address, d: Address)
    ensures FirstMatch(a + b, s, d) == if FirstMatch(a, s, d).Some? then FirstMatch(a, s, d) else FirstMatch(b, s, d)
  {
    if a == [] {
      assert a + b == b;
    } else {
      assert (a + b)[1..] == a[1..] + b;
      FirstMatchOfConcat(a[1..], b, s, d);
    }
  }

  /** While a chain is being appended to, a packet is undecided or already decided for good. */
  lemma PartialChainNeverDecidesDifferently(chain: seq<ChainRule>, k: nat, s: Address, d: Address)
    requires k <= |chain|
    ensures FirstMatch(chain[..k], s, d).None? || FirstMatch(chain[..k], s, d) == FirstMatch(chain, s, d)
  {
    assert chain == chain[..k] + chain[k..];
    FirstMatchOfConcat(chain[..k], chain[k..], s, d);
  }

  // ---------------------------------------------------------------------
  // Meaning
  // ---------------------------------------------------------------------

  predicate AnyCovers(parse: CidrParser, texts: seq<string>, a: Address) {
    exists i | 0 <= i < |texts| :: parse(texts[i]).Some? && parse(texts[i]).value.Covers(a)
  }

  /** An allow or deny rule with a matching source prefix and a matching destination prefix. */
  predicate Applies(parse: CidrParser, r: NsgRule, s: Address, d: Address) {
    (r.action == Allow || r.action == Deny) && AnyCovers(parse, r.srcCidrs, s) && AnyCovers(parse, r.dstCidrs, d)
  }

  predicate Precedes(rules: seq<NsgRule>, i: nat, j: nat)
    requires i < |rules| && j < |rules|
  {
    rules[i].priority < rules[j].priority || (rules[i].priority == rules[j].priority && i <= j)
  }

  /** Rule i is the applicable rule of least (priority, position). */
  ghost predicate Decides(parse: CidrParser, rules: seq<NsgRule>, i: nat, s: Address, d: Address) {
    && i < |rules| && Applies(parse, rules[i], s, d)
    && forall j: nat | j < |rules| && Applies(parse, rules[j], s, d) :: Precedes(rules, i, j)
  }

  ghost predicate ValidRules(parse: CidrParser, rules: seq<NsgRule>) {
    KnowsAny(parse) &&
    forall r | r in rules :: forall t | t in r.srcCidrs || t in r.dstCidrs :: parse(t).Some?
  }

  lemma InstallOfConcat(parse: CidrParser, a: seq<Batch>, b: seq<Batch>)
    requires AllParse(parse, a) && AllParse(parse, b)
    ensures AllParse(parse, a + b)
    ensures Install(parse, a + b) == Install(parse, a) + Install(parse, b)
  {
  }

  lemma {:induction false} RowMeaning(parse: CidrParser, src: string, dsts: seq<string>, v: Verdict, s: Address,
                                      d: Address)
    requires parse(src).Some? && forall t | t in dsts :: parse(t).Some?
    ensures AllParse(parse, RowBatches(src, dsts, v))
    ensures FirstMatch(Install(parse, RowBatches(src, dsts, v)), s, d)
            == if parse(src).value.Covers(s) && AnyCovers(parse, dsts, d) then Some(v) else None
    decreases |dsts|
  {
    var row := RowBatches(src, dsts, v);
    if dsts != [] {
      assert dsts[0] in dsts;
      RowMeaning(parse, src, dsts[1..], v, s, d);
      assert row == [Batch(src, dsts[0], v)] + RowBatches(src, dsts[1..], v);
      assert Install(parse, row)[1..] == Install(parse, RowBatches(src, dsts[1..], v));
      AnyCoversStep(parse, dsts, d);
    }
  }

  lemma AnyCoversStep(parse: CidrParser, texts: seq<string>, a: Address)
    requires texts != []
    ensures AnyCovers(parse, texts, a) <==>
            (parse(texts[0]).Some? && parse(texts[0]).value.Covers(a)) || AnyCovers(parse, texts[1..], a)
  {
    if AnyCovers(parse, texts[1..], a) {
      var i :| 0 <= i < |texts[1..]| && parse(texts[1..][i]).Some? && parse(texts[1..][i]).value.Covers(a);
      assert texts[i + 1] == texts[1..][i];
    }
    if AnyCovers(parse, texts, a) {
      var i :| 0 <= i < |texts| && parse(texts[i]).Some? && parse(texts[i]).value.Covers(a);
      assert i > 0 ==> texts[1..][i - 1] == texts[i];
    }
  }

  lemma {:induction false} ExpandMeaning(parse: CidrParser, srcs: seq<string>, dsts: seq<string>, v: Verdict,
                                         s: Address, d: Address)
    requires forall t | t in srcs || t in dsts :: parse(t).Some?
    ensures AllParse(parse, Expand(srcs, dsts, v))
    ensures FirstMatch(Install(parse, Expand(srcs, dsts, v)), s, d)
            == if AnyCovers(parse, srcs, s) && AnyCovers(parse, dsts, d) then Some(v) else None
    decreases |srcs|
  {
    if srcs != [] {
      assert srcs[0] in srcs;
      var row, rest := RowBatches(srcs[0], dsts, v), Expand(srcs[1..], dsts, v);
      RowMeaning(parse, srcs[0], dsts, v, s, d);
      ExpandMeaning(parse, srcs[1..], dsts, v, s, d);
      InstallOfConcat(parse, row, rest);
      FirstMatchOfConcat(Install(parse, row), Install(parse, rest), s, d);
      AnyCoversStep(parse, srcs, s);
    }
  }

  /** The first applicable rule in list order. */
  function FirstApplying(parse: CidrParser, rules: seq<NsgRule>, s: Address, d: Address): Option<NsgRule> {
    if rules == [] then None
    else if Applies(parse, rules[0], s, d) then Some(rules[0])
    else FirstApplying(parse, rules[1..], s, d)
  }

  lemma {:induction false} ChainMeansFirstApplying(parse: CidrParser, rules: seq<NsgRule>, s: Address, d: Address)
    requires ValidRules(parse, rules)
    ensures AllParse(parse, AllBatches(rules))
    ensures FirstMatch(Install(parse, AllBatches(rules)), s, d)
            == (match FirstApplying(parse, rules, s, d) case Some(r) => VerdictOf(r.action) case None => None)
    decreases |rules|
  {
    if rules != [] {
      var r := rules[0];
      assert r in rules;
      ChainMeansFirstApplying(parse, rules[1..], s, d);
      if VerdictOf(r.action).Some? {
        ExpandMeaning(parse, r.srcCidrs, r.dstCidrs, VerdictOf(r.action).value, s, d);
      }
      InstallOfConcat(parse, RuleBatches(r), AllBatches(rules[1..]));
      FirstMatchOfConcat(Install(parse, RuleBatches(r)), Install(parse, AllBatches(rules[1..])), s, d);
    }
  }

  // ---------------------------------------------------------------------
  // Sorting
  // ---------------------------------------------------------------------

  ghost predicate SortedByPriority(rules: seq<NsgRule>) {
    forall i, j | 0 <= i <= j < |rules| :: rules[i].priority <= rules[j].priority
  }

  function OfPriority(rules: seq<NsgRule>, p: nat): seq<NsgRule> {
    if rules == [] then []
    else (if rules[0].priority == p then [rules[0]] else []) + OfPriority(rules[1..], p)
  }

  lemma {:induction false} InsertPermutes(r: NsgRule, sorted: seq<NsgRule>)
    ensures multiset(Insert(r, sorted)) == multiset{r} + multiset(sorted)
    decreases |sorted|
  {
    if !(sorted == [] || r.priority <= sorted[0].priority) {
      InsertPermutes(r, sorted[1..]);
      assert sorted == [sorted[0]] + sorted[1..];
    }
  }

  lemma {:induction false} InsertKeepsSorted(r: NsgRule, sorted: seq<NsgRule>)
    requires SortedByPriority(sorted)
    ensures SortedByPriority(Insert(r, sorted))
    decreases |sorted|
  {
    if !(sorted == [] || r.priority <= sorted[0].priority) {
      var tail := Insert(r, sorted[1..]);
      InsertKeepsSorted(r, sorted[1..]);
      InsertPermutes(r, sorted[1..]);
      forall k | 0 <= k < |tail| ensures sorted[0].priority <= tail[k].priority {
        assert tail[k] in multiset(tail);
        assert tail[k] == r || tail[k] in sorted[1..];
      }
    }
  }

  lemma OfPriorityCons(r: NsgRule, rest: seq<NsgRule>, p: nat)
    ensures OfPriority([r] + rest, p) == (if r.priority == p then [r] else []) + OfPriority(rest, p)
  {
    assert ([r] + rest)[1..] == rest;
  }

  lemma {:induction false} InsertIsStable(r: NsgRule, sorted: seq<NsgRule>, p: nat)
    ensures OfPriority(Insert(r, sorted), p) == (if r.priority == p then [r] else []) + OfPriority(sorted, p)
    decreases |sorted|
  {
    if sorted == [] || r.priority <= sorted[0].priority {
      OfPriorityCons(r, sorted, p);
    } else {
      InsertIsStable(r, sorted[1..], p);
      OfPriorityCons(sorted[0], Insert(r, sorted[1..]), p);
      OfPriorityCons(sorted[0], sorted[1..], p);
      assert sorted == [sorted[0]] + sorted[1..];
    }
  }

  /** `Sort` is a stable sort: ordered, a permutation, and order-preserving within each priority. */
  lemma {:induction false} SortIsStable(rules: seq<NsgRule>, p: nat)
    ensures SortedByPriority(Sort(rules))
    ensures multiset(Sort(rules)) == multiset(rules)
    ensures OfPriority(Sort(rules), p) == OfPriority(rules, p)
    decreases |rules|
  {
    if rules != [] {
      SortIsStable(rules[1..], p);
      InsertPermutes(rules[0], Sort(rules[1..]));
      InsertKeepsSorted(rules[0], Sort(rules[1..]));
      InsertIsStable(rules[0], Sort(rules[1..]), p);
      assert rules == [rules[0]] + rules[1..];
    }
  }

  lemma {:induction false} FirstApplyingAfterInsert(parse: CidrParser, r: NsgRule, sorted: seq<NsgRule>, s: Address,
                                                    d: Address)
    requires SortedByPriority(sorted)
    ensures FirstApplying(parse, Insert(r, sorted), s, d) ==
            var f := FirstApplying(parse, sorted, s, d);
            if Applies(parse, r, s, d) && (f.None? || r.priority <= f.value.priority) then Some(r) else f
    decreases |sorted|
  {
    FirstApplyingIsElement(parse, sorted, s, d);
    if sorted == [] || r.priority <= sorted[0].priority {
      assert ([r] + sorted)[1..] == sorted;
    } else {
      FirstApplyingAfterInsert(parse, r, sorted[1..], s, d);
      assert ([sorted[0]] + Insert(r, sorted[1..]))[1..] == Insert(r, sorted[1..]);
    }
  }

  lemma {:induction false} FirstApplyingIsElement(parse: CidrParser, rules: seq<NsgRule>, s: Address, d: Address)
    ensures var f := FirstApplying(parse, rules, s, d);
            if f.Some? then f.value in rules && Applies(parse, f.value, s, d)
            else forall r | r in rules :: !Applies(parse, r, s, d)
    decreases |rules|
  {
    if rules != [] { FirstApplyingIsElement(parse, rules[1..], s, d); }
  }

  /** Searching the sorted list finds the applicable rule of least (priority, position). */
  lemma {:induction false} SortedSearchFindsDecider(parse: CidrParser, rules: seq<NsgRule>, s: Address, d: Address)
    ensures match FirstApplying(parse, Sort(rules), s, d)
            case Some(r) => exists i: nat :: Decides(parse, rules, i, s, d) && rules[i] == r
            case None => forall i | 0 <= i < |rules| :: !Applies(parse, rules[i], s, d)
    decreases |rules|
  {
    if rules != [] {
      var rest := rules[1..];
      SortedSearchFindsDecider(parse, rest, s, d);
      SortIsStable(rest, 0);
      FirstApplyingAfterInsert(parse, rules[0], Sort(rest), s, d);
      assert forall j | 0 < j < |rules| :: rules[j] == rest[j - 1];
      match FirstApplying(parse, Sort(rest), s, d)
      case Some(r) =>
        var i: nat :| Decides(parse, rest, i, s, d) && rest[i] == r;
        if Applies(parse, rules[0], s, d) && rules[0].priority <= r.priority {
          forall j: nat | j < |rules| && Applies(parse, rules[j], s, d) ensures Precedes(rules, 0, j) {
            assert j > 0 ==> Precedes(rest, i, j - 1);
          }
          assert Decides(parse, rules, 0, s, d);
        } else {
          forall j: nat | j < |rules| && Applies(parse, rules[j], s, d) ensures Precedes(rules, i + 1, j) {
            assert j > 0 ==> Precedes(rest, i, j - 1);
          }
          assert Decides(parse, rules, i + 1, s, d);
        }
      case None =>
        if Applies(parse, rules[0], s, d) {
          assert Decides(parse, rules, 0, s, d);
        }
    }
  }

  lemma DeciderIsUnique(parse: CidrParser, rules: seq<NsgRule>, i: nat, j: nat, s: Address, d: Address)
    requires Decides(parse, rules, i, s, d) && Decides(parse, rules, j, s, d)
    ensures i == j
  {
    assert Precedes(rules, i, j) && Precedes(rules, j, i);
  }

  // ---------------------------------------------------------------------
  // Main results
  // ---------------------------------------------------------------------

  lemma ValidPlanParses(parse: CidrParser, rules: seq<NsgRule>)
    requires ValidRules(parse, rules)
    ensures ValidRules(parse, Sort(rules)) && AllParse(parse, Plan(rules))
  {
    SortIsStable(rules, 0);
    forall r | r in Sort(rules) ensures r in rules {
      assert r in multiset(Sort(rules));
    }
    ChainMeansFirstApplying(parse, Sort(rules), 0, 0);
  }

  /** The chain installed for a set of rules. */
  ghost function Compiled(parse: CidrParser, rules: seq<NsgRule>): seq<ChainRule>
    requires ValidRules(parse, rules)
  {
    ValidPlanParses(parse, rules);
    Install(parse, Plan(rules))
  }

  /** First match on the compiled chain is the action of the applicable rule of least
      (priority, position), and drop when there is none. */
  lemma CompilationPreservesMeaning(parse: CidrParser, rules: seq<NsgRule>, s: Address, d: Address)
    requires ValidRules(parse, rules)
    ensures forall i: nat | Decides(parse, rules, i, s, d) ::
              FirstMatch(Compiled(parse, rules), s, d) == Some(if rules[i].action == Allow then Accept else Drop)
    ensures (forall i: nat :: !Decides(parse, rules, i, s, d)) ==>
              FirstMatch(Compiled(parse, rules), s, d) == Some(Drop) &&
              forall r | r in rules :: !Applies(parse, r, s, d)
  {
    ValidPlanParses(parse, rules);
    var last := [Batch(ANY, ANY, Drop)];
    InstallOfConcat(parse, AllBatches(Sort(rules)), last);
    FirstMatchOfConcat(Install(parse, AllBatches(Sort(rules))), Install(parse, last), s, d);
    EverythingMatchesAny(s, d);
    ChainMeansFirstApplying(parse, Sort(rules), s, d);
    SortedSearchFindsDecider(parse, rules, s, d);
    forall i: nat | Decides(parse, rules, i, s, d)
      ensures FirstMatch(Compiled(parse, rules), s, d) == VerdictOf(rules[i].action)
    {
      var j: nat :| Decides(parse, rules, j, s, d)
                    && rules[j] == FirstApplying(parse, Sort(rules), s, d).value;
      DeciderIsUnique(parse, rules, i, j, s, d);
    }
  }

  /** A prefix of no bits covers every address, one of 24 those with the same first three octets, one of 32 only its
      own, and one above 32 none. */
  lemma PrefixMeaning(network: Address, a: Address, bits: nat)
    ensures Prefix(network, 0).Covers(a)
    ensures Prefix(network, 24).Covers(a) <==> a / 256 == network / 256
    ensures Prefix(network, 32).Covers(a) <==> a == network
    ensures bits > 32 ==> !Prefix(network, bits).Covers(a)
  {
    Pow2Values();
    var n: nat := 0;
    assert Pow2(n) == 1;
  }

  lemma EverythingMatchesAny(s: Address, d: Address)
    ensures ChainRule(Prefix(0, 0), Prefix(0, 0), Drop).Matches(s, d)
  {
    Pow2Values();
  }

  lemma DeciderExists(parse: CidrParser, rules: seq<NsgRule>, k: nat, s: Address, d: Address)
    requires k < |rules| && Applies(parse, rules[k], s, d)
    ensures exists i: nat :: Decides(parse, rules, i, s, d)
  {
    SortedSearchFindsDecider(parse, rules, s, d);
  }

  lemma SameElements(a: seq<NsgRule>, b: seq<NsgRule>, r: NsgRule)
    requires multiset(a) == multiset(b)
    ensures r in a <==> r in b
  {
    assert r in multiset(a) <==> r in multiset(b);
  }

  lemma DecidersAgree(parse: CidrParser, a: seq<NsgRule>, b: seq<NsgRule>, i: nat, j: nat, s: Address, d: Address)
    requires multiset(a) == multiset(b)
    requires forall x, y | 0 <= x < y < |a| :: a[x].priority != a[y].priority
    requires Decides(parse, a, i, s, d) && Decides(parse, b, j, s, d)
    ensures a[i] == b[j]
  {
    SameElements(a, b, a[i]);
    SameElements(a, b, b[j]);
    var k: nat :| k < |b| && b[k] == a[i];
    var m: nat :| m < |a| && a[m] == b[j];
    assert Precedes(b, j, k) && Precedes(a, i, m);
  }

  /** With pairwise distinct priorities the order in which the rules are written is immaterial. */
  lemma RuleOrderIsImmaterial(parse: CidrParser, a: seq<NsgRule>, b: seq<NsgRule>, s: Address, d: Address)
    requires ValidRules(parse, a) && ValidRules(parse, b)
    requires multiset(a) == multiset(b)
    requires forall i, j | 0 <= i < j < |a| :: a[i].priority != a[j].priority
    ensures FirstMatch(Compiled(parse, a), s, d) == FirstMatch(Compiled(parse, b), s, d)
  {
    CompilationPreservesMeaning(parse, a, s, d);
    CompilationPreservesMeaning(parse, b, s, d);
    if r :| r in a && Applies(parse, r, s, d) {
      SameElements(a, b, r);
      var i, j :| 0 <= i < |a| && a[i] == r && 0 <= j < |b| && b[j] == r;
      DeciderExists(parse, a, i, s, d);
      DeciderExists(parse, b, j, s, d);
      var x: nat, y: nat :| Decides(parse, a, x, s, d) && Decides(parse, b, y, s, d);
      DecidersAgree(parse, a, b, x, y, s, d);
    } else {
      forall i: nat ensures !Decides(parse, a, i, s, d) {}
      forall j: nat ensures !Decides(parse, b, j, s, d) {
        if j < |b| { SameElements(a, b, b[j]); }
      }
    }
  }

  /** If the chain of an earlier group was not emptied, the rules of a later group are dead:
      the earlier default deny already decides every packet. */
  lemma WithoutResetLaterRulesAreDead(parse: CidrParser, earlier: seq<NsgRule>, later: seq<NsgRule>, s: Address,
                                      d: Address)
    requires ValidRules(parse, earlier) && ValidRules(parse, later)
    ensures FirstMatch(Compiled(parse, earlier) + Compiled(parse, later), s, d)
            == FirstMatch(Compiled(parse, earlier), s, d)
  {
    CompilationPreservesMeaning(parse, earlier, s, d);
    FirstMatchOfConcat(Compiled(parse, earlier), Compiled(parse, later), s, d);
  }

  // ---------------------------------------------------------------------
  // What a call leaves
  // ---------------------------------------------------------------------

  lemma {:induction false} AllTaken(parse: CidrParser, plan: seq<Batch>, answers: nat -> Answer, n: nat)
    requires AllParse(parse, plan) && n <= |plan| && forall j | 0 <= j < n :: answers(j) == Installed
    ensures Kept(parse, plan, answers, n) == Install(parse, plan)[..n]
  {
    if n > 0 {
      AllTaken(parse, plan, answers, n - 1);
      assert plan[n - 1] in plan;
      assert Install(parse, plan)[..n] == Install(parse, plan)[..n - 1] + [RuleOf(parse, plan[n - 1])];
    }
  }

  lemma {:induction false} KeptIsShorter(parse: CidrParser, plan: seq<Batch>, answers: nat -> Answer, n: nat)
    requires n <= |plan|
    ensures |Kept(parse, plan, answers, n)| <= n
    ensures (exists j | 0 <= j < n :: answers(j) != Installed) ==> |Kept(parse, plan, answers, n)| < n
  {
    if n > 0 { KeptIsShorter(parse, plan, answers, n - 1); }
  }

  /** After a reported success the chain is the compiled one exactly when the kernel ignored no batch. */
  lemma SuccessInstallsAllIff(parse: CidrParser, rules: seq<NsgRule>, chain: seq<ChainRule>, answers: nat -> Answer)
    requires ValidRules(parse, rules) && InstalledUpTo([], chain, Plan(rules), parse, answers, true)
    ensures chain == Compiled(parse, rules) <==> forall j | 0 <= j < |Plan(rules)| :: answers(j) != Ignored
  {
    ValidPlanParses(parse, rules);
    var plan := Plan(rules);
    SuccessKeepsPlanIff(parse, plan, chain, answers);
  }

  lemma SuccessKeepsPlanIff(parse: CidrParser, plan: seq<Batch>, chain: seq<ChainRule>, answers: nat -> Answer)
    requires AllParse(parse, plan) && InstalledUpTo([], chain, plan, parse, answers, true)
    ensures chain == Install(parse, plan) <==> forall j | 0 <= j < |plan| :: answers(j) != Ignored
  {
    var n := |plan|;
    assert chain == Kept(parse, plan, answers, n);
    if forall j | 0 <= j < n :: answers(j) != Ignored {
      forall j | 0 <= j < n ensures answers(j) == Installed { assert Passes(parse, plan, answers, j); }
      AllTaken(parse, plan, answers, n);
      assert Install(parse, plan)[..n] == Install(parse, plan);
    } else {
      KeptIsShorter(parse, plan, answers, n);
    }
  }

  /** Batch j became a rule, and it matches the packet. */
  predicate Hits(parse: CidrParser, plan: seq<Batch>, answers: nat -> Answer, j: nat, s: Address, d: Address)
    requires j < |plan|
  {
    Takes(parse, plan, answers, j) && RuleOf(parse, plan[j]).Matches(s, d)
  }

  /** Batch j is the first of the first n to do so. */
  ghost predicate FirstTaken(parse: CidrParser, plan: seq<Batch>, answers: nat -> Answer, n: nat, j: nat,
                             s: Address, d: Address)
    requires n <= |plan|
  {
    j < n && Hits(parse, plan, answers, j, s, d) && forall i | 0 <= i < j :: !Hits(parse, plan, answers, i, s, d)
  }

  lemma KeptStep(parse: CidrParser, plan: seq<Batch>, answers: nat -> Answer, n: nat, s: Address, d: Address)
    requires 0 < n <= |plan|
    ensures FirstMatch(Kept(parse, plan, answers, n), s, d) ==
            var front := FirstMatch(Kept(parse, plan, answers, n - 1), s, d);
            if front.None? && Hits(parse, plan, answers, n - 1, s, d) then Some(plan[n - 1].verdict) else front
  {
    var front := Kept(parse, plan, answers, n - 1);
    if Takes(parse, plan, answers, n - 1) {
      var last := RuleOf(parse, plan[n - 1]);
      FirstMatchOfConcat(front, [last], s, d);
      assert FirstMatch([last], s, d) == if last.Matches(s, d) then Some(last.verdict) else None;
    } else {
      assert front + [] == front;
    }
  }

  lemma {:induction false} KeptMeaning(parse: CidrParser, plan: seq<Batch>, answers: nat -> Answer, n: nat,
                                       s: Address, d: Address)
    requires n <= |plan|
    ensures match FirstMatch(Kept(parse, plan, answers, n), s, d)
            case None => forall i | 0 <= i < n :: !Hits(parse, plan, answers, i, s, d)
            case Some(v) => exists j: nat :: FirstTaken(parse, plan, answers, n, j, s, d) && plan[j].verdict == v
    decreases n
  {
    if n > 0 {
      KeptMeaning(parse, plan, answers, n - 1, s, d);
      KeptStep(parse, plan, answers, n, s, d);
      match FirstMatch(Kept(parse, plan, answers, n - 1), s, d)
      case Some(v) =>
        var j: nat :| FirstTaken(parse, plan, answers, n - 1, j, s, d) && plan[j].verdict == v;
        assert FirstTaken(parse, plan, answers, n, j, s, d);
      case None =>
        if Hits(parse, plan, answers, n - 1, s, d) {
          assert FirstTaken(parse, plan, answers, n, n - 1, s, d);
        }
    }
  }

  lemma FirstTakenIsUnique(parse: CidrParser, plan: seq<Batch>, answers: nat -> Answer, n: nat, i: nat, j: nat,
                           s: Address, d: Address)
    requires n <= |plan|
    requires FirstTaken(parse, plan, answers, n, i, s, d) && FirstTaken(parse, plan, answers, n, j, s, d)
    ensures i == j
  {
  }

  /** Whatever the call left, a packet is decided as the compiled chain decides it exactly when the rules left over
      by the reset decide it so, or do not decide it and the first installed batch that matches it has the right
      verdict. */
  lemma DecidedAsIntendedIff(parse: CidrParser, rules: seq<NsgRule>, base: seq<ChainRule>, chain: seq<ChainRule>,
                             answers: nat -> Answer, k: nat, s: Address, d: Address)
    requires ValidRules(parse, rules) && Sent(base, chain, Plan(rules), k, parse, answers)
    ensures FirstMatch(chain, s, d) == FirstMatch(Compiled(parse, rules), s, d) <==>
            FirstMatch(base, s, d) == FirstMatch(Compiled(parse, rules), s, d)
            || (FirstMatch(base, s, d).None?
                && exists j: nat :: FirstTaken(parse, Plan(rules), answers, k, j, s, d)
                                    && FirstMatch(Compiled(parse, rules), s, d) == Some(Plan(rules)[j].verdict))
  {
    var plan, meant := Plan(rules), FirstMatch(Compiled(parse, rules), s, d);
    CompiledDecides(parse, rules, s, d);
    PlanDecidesIff(parse, plan, base, chain, answers, k, s, d, meant.value);
  }

  lemma PlanDecidesIff(parse: CidrParser, plan: seq<Batch>, base: seq<ChainRule>, chain: seq<ChainRule>,
                       answers: nat -> Answer, k: nat, s: Address, d: Address, v: Verdict)
    requires Sent(base, chain, plan, k, parse, answers)
    ensures FirstMatch(chain, s, d) == Some(v) <==>
            FirstMatch(base, s, d) == Some(v)
            || (FirstMatch(base, s, d).None?
                && exists j: nat :: FirstTaken(parse, plan, answers, k, j, s, d) && plan[j].verdict == v)
  {
    var kept := Kept(parse, plan, answers, k);
    FirstMatchOfConcat(base, kept, s, d);
    KeptMeaning(parse, plan, answers, k, s, d);
    forall i: nat, j: nat | FirstTaken(parse, plan, answers, k, i, s, d) && FirstTaken(parse, plan, answers, k, j, s, d)
      ensures i == j
    {
      FirstTakenIsUnique(parse, plan, answers, k, i, j, s, d);
    }
  }

  lemma CompiledDecides(parse: CidrParser, rules: seq<NsgRule>, s: Address, d: Address)
    requires ValidRules(parse, rules)
    ensures FirstMatch(Compiled(parse, rules), s, d).Some?
  {
    CompilationPreservesMeaning(parse, rules, s, d);
    if i: nat :| Decides(parse, rules, i, s, d) {
      assert FirstMatch(Compiled(parse, rules), s, d) == VerdictOf(rules[i].action);
    }
  }

  /** Where the kernel ignored no batch, every packet is undecided or decided as intended, also after a failure. */
  lemma AppliedChainMeaning(parse: CidrParser, rules: seq<NsgRule>, chain: seq<ChainRule>,
                            answers: nat -> Answer, k: nat, s: Address, d: Address)
    requires ValidRules(parse, rules) && Sent([], chain, Plan(rules), k, parse, answers)
    requires forall j | 0 <= j < k :: answers(j) != Ignored
    ensures chain == Compiled(parse, rules)[..k]
    ensures FirstMatch(chain, s, d).None? || FirstMatch(chain, s, d) == FirstMatch(Compiled(parse, rules), s, d)
  {
    ValidPlanParses(parse, rules);
    forall j | 0 <= j < k ensures answers(j) == Installed { assert Passes(parse, Plan(rules), answers, j); }
    AllTaken(parse, Plan(rules), answers, k);
    PartialChainNeverDecidesDifferently(Compiled(parse, rules), k, s, d);
  }

  lemma {:induction false} NothingTaken(parse: CidrParser, plan: seq<Batch>, answers: nat -> Answer, n: nat)
    requires n <= |plan| && forall j | 0 <= j < n :: answers(j) != Installed
    ensures Kept(parse, plan, answers, n) == []
  {
    if n > 0 { NothingTaken(parse, plan, answers, n - 1); }
  }

  /** A chain that is missing after the reset: the call may report success, and no packet is decided. */
  lemma MissingChainDecidesNothing(parse: CidrParser, rules: seq<NsgRule>, chain: seq<ChainRule>,
                                   answers: nat -> Answer, ok: bool, s: Address, d: Address)
    requires InstalledUpTo([], chain, Plan(rules), parse, Possible(false, answers), ok)
    ensures FirstMatch(chain, s, d).None?
    ensures ValidRules(parse, rules) && (forall j: nat :: answers(j) != Refused) ==> ok
  {
    var actual := Possible(false, answers);
    var k: nat :| Sent([], chain, Plan(rules), k, parse, actual) && StoppedAt(Plan(rules), k, parse, actual, ok);
    NothingTaken(parse, Plan(rules), actual, k);
    if ValidRules(parse, rules) {
      ValidPlanParses(parse, rules);
      assert k < |Plan(rules)| ==> Plan(rules)[k] in Plan(rules);
    }
  }

  function IgnoreFirst(j: nat): Answer {
    if j == 0 then Ignored else Installed
  }

  /** An ignored deny in front of an allow lets its packets through, and the call reports success. */
  lemma IgnoredDenyLetsThrough(parse: CidrParser, text: string, deny: NsgRule, allow: NsgRule, chain: seq<ChainRule>,
                               s: Address, d: Address)
    requires KnowsAny(parse) && parse(text).Some? && parse(text).value.Covers(s) && parse(text).value.Covers(d)
    requires deny == NsgRule("deny", Deny, [text], [text], 1)
    requires allow == NsgRule("allow", Allow, [text], [text], 2)
    requires chain == Kept(parse, Plan([deny, allow]), IgnoreFirst, |Plan([deny, allow])|)
    ensures ValidRules(parse, [deny, allow])
    ensures InstalledUpTo([], chain, Plan([deny, allow]), parse, IgnoreFirst, true)
    ensures FirstMatch(Compiled(parse, [deny, allow]), s, d) == Some(Drop)
    ensures FirstMatch(chain, s, d) == Some(Accept)
  {
    var rules, plan := [deny, allow], Plan([deny, allow]);
    TwoRulePlan(text, deny, allow);
    ValidPlanParses(parse, rules);
    var n := |plan|;
    forall j | 0 <= j < n ensures Passes(parse, plan, IgnoreFirst, j) {
      assert plan[j] in plan;
    }
    assert Sent([], chain, plan, n, parse, IgnoreFirst) && StoppedAt(plan, n, parse, IgnoreFirst, true);
    assert Hits(parse, plan, IgnoreFirst, 1, s, d) && !Hits(parse, plan, IgnoreFirst, 0, s, d);
    assert FirstTaken(parse, plan, IgnoreFirst, n, 1, s, d);
    PlanDecidesIff(parse, plan, [], chain, IgnoreFirst, n, s, d, Accept);
    CompilationPreservesMeaning(parse, rules, s, d);
    assert deny.srcCidrs[0] == text && Applies(parse, deny, s, d);
    assert Decides(parse, rules, 0, s, d);
  }

  lemma TwoRulePlan(text: string, deny: NsgRule, allow: NsgRule)
    requires deny == NsgRule("deny", Deny, [text], [text], 1)
    requires allow == NsgRule("allow", Allow, [text], [text], 2)
    ensures Plan([deny, allow]) == [Batch(text, text, Drop), Batch(text, text, Accept), Batch(ANY, ANY, Drop)]
  {
    assert [deny, allow][1..] == [allow] && [allow][1..] == [];
    assert Sort([allow]) == Insert(allow, Sort([])) == [allow];
    assert Sort([deny, allow]) == Insert(deny, [allow]) == [deny, allow];
    assert [text][1..] == [];
    assert Expand([text], [text], Drop) == [Batch(text, text, Drop)];
    assert Expand([text], [text], Accept) == [Batch(text, text, Accept)];
    assert AllBatches([allow]) == RuleBatches(allow) + AllBatches([]);
  }
}
