/** Recovery contracts and their rollback (src/pfsense_mcp/recovery.py,
    rollback.py, pfsense_write_client.py). */
module Recovery {
  import opened Options

  datatype Status = Open | Committed | RolledBack | Expired

  datatype Contract = Contract(
    id: string, capability: string, endpoint: string, createdAt: int, expiresAt: int, snapshot: string, plan: string, status: Status)

  type Contracts = map<string, Contract>

  predicate IsExpired(c: Contract, now: int) {
    now >= c.expiresAt
  }

  /** Reading an open contract past its expiry turns it into an expired one. */
  function Read(st: Contracts, id: string, now: int): Contracts {
    if id in st && st[id].status.Open? && IsExpired(st[id], now) then st[id := st[id].(status := Expired)] else st
  }

  function Transition(st: Contracts, id: string, status: Status): Contracts {
    if id in st then st[id := st[id].(status := status)] else st
  }

  // ------------------------------------------------------------ the program's form

  class RecoveryContractStore {
    var contracts: Contracts

    constructor ()
      ensures contracts == map[]
    {
      contracts := map[];
    }

    /** The clock and the new identifier are inputs. */
    method Create(id: string, capability: string, endpoint: string, snapshot: string, plan: string, ttl: int, now: int)
      returns (c: Contract)
      modifies this
      ensures c == Contract(id, capability, endpoint, now, now + ttl, snapshot, plan, Open)
      ensures contracts == old(contracts)[id := c]
    {
      c := Contract(id, capability, endpoint, now, now + ttl, snapshot, plan, Open);
      contracts := contracts[id := c];
    }

    method Get(id: string, now: int) returns (r: Option<Contract>)
      modifies this
      ensures contracts == Read(old(contracts), id, now)
      ensures r == if id in contracts then Some(contracts[id]) else None
      ensures r.Some? && r.value.status.Open? ==> !IsExpired(r.value, now)
    {
      if id !in contracts {
        return None;
      }
      var c := contracts[id];
      if c.status.Open? && IsExpired(c, now) {
        c := c.(status := Expired);
        contracts := contracts[id := c];
      }
      return Some(c);
    }

    method MoveTo(id: string, status: Status) returns (r: Option<Contract>)
      modifies this
      ensures contracts == Transition(old(contracts), id, status)
      ensures r == if id in contracts then Some(contracts[id]) else None
    {
      if id !in contracts {
        return None;
      }
      contracts := contracts[id := contracts[id].(status := status)];
      return Some(contracts[id]);
    }
  }

  /** Whether the write endpoint and API version admit the plan, and whether the
      request succeeds, are inputs. Both operations trust the contract value they
      are given. */
  class PfSenseWriteClient {
    const store: RecoveryContractStore

    constructor (store: RecoveryContractStore)
      ensures this.store == store
    {
      this.store := store;
    }

    method Execute(c: Contract, confirm: bool, admitted: bool, now: int, succeeds: bool) returns (ok: bool)
      modifies store
      ensures (store.contracts, ok) == ExecuteStep(old(store.contracts), c, confirm, admitted, now, succeeds)
    {
      if !confirm || !admitted || !c.status.Open? || IsExpired(c, now) || !succeeds {
        return false;
      }
      var _ := store.MoveTo(c.id, Committed);
      return true;
    }

    method Rollback(c: Contract, succeeds: bool) returns (ran: bool)
      modifies store
      ensures (store.contracts, ran) == RollbackStep(old(store.contracts), c, succeeds)
    {
      if !c.status.Committed? {
        return false;
      }
      if succeeds {
        var _ := store.MoveTo(c.id, RolledBack);
      }
      return true;
    }
  }

  function ExecuteStep(st: Contracts, c: Contract, confirm: bool, admitted: bool, now: int, succeeds: bool): (Contracts, bool) {
    if confirm && admitted && c.status.Open? && !IsExpired(c, now) && succeeds
    then (Transition(st, c.id, Committed), true)
    else (st, false)
  }

  function RollbackStep(st: Contracts, c: Contract, succeeds: bool): (Contracts, bool) {
    if !c.status.Committed? then (st, false)
    else if succeeds then (Transition(st, c.id, RolledBack), true)
    else (st, true)
  }

  // ---------------------------------------------------------------------------- runs

  datatype Op =
    | Create(contract: Contract)
    | Get(id: string, now: int)
    | Execute(given: Contract, confirm: bool, admitted: bool, at: int, succeeds: bool)
    | Rollback(given: Contract, succeeds: bool)

  function Next(st: Contracts, op: Op): Contracts {
    match op
    case Create(c) => st[c.id := c]
    case Get(id, now) => Read(st, id, now)
    case Execute(c, confirm, admitted, at, succeeds) => ExecuteStep(st, c, confirm, admitted, at, succeeds).0
    case Rollback(c, succeeds) => RollbackStep(st, c, succeeds).0
  }

  function After(st: Contracts, ops: seq<Op>): Contracts {
    if ops == [] then st else Next(After(st, ops[..|ops| - 1]), ops[|ops| - 1])
  }

  /** Random identifiers are new, and contracts start open. */
  ghost predicate NewIds(st: Contracts, ops: seq<Op>) {
    forall i :: 0 <= i < |ops| && ops[i].Create? ==>
      ops[i].contract.id !in After(st, ops[..i]) && ops[i].contract.status.Open?
  }

  /** What the operation answers in `st`: that the mutation was committed, or that
      the rollback plan was run. */
  function Reply(st: Contracts, op: Op): bool {
    match op
    case Execute(c, confirm, admitted, at, succeeds) => ExecuteStep(st, c, confirm, admitted, at, succeeds).1
    case Rollback(c, succeeds) => RollbackStep(st, c, succeeds).1
    case _ => false
  }

  predicate Commits(st: Contracts, op: Op, id: string) {
    op.Execute? && op.given.id == id && Reply(st, op)
  }

  /** The rollback plan runs. */
  predicate Runs(st: Contracts, op: Op, id: string) {
    op.Rollback? && op.given.id == id && Reply(st, op)
  }

  predicate RollsBack(st: Contracts, op: Op, id: string) {
    Runs(st, op, id) && op.succeeds
  }

  function CountCommits(st: Contracts, ops: seq<Op>, id: string): nat {
    if ops == [] then 0
    else
      var init, last := ops[..|ops| - 1], ops[|ops| - 1];
      CountCommits(st, init, id) + if Commits(After(st, init), last, id) then 1 else 0
  }

  function CountRollbacks(st: Contracts, ops: seq<Op>, id: string): nat {
    if ops == [] then 0
    else
      var init, last := ops[..|ops| - 1], ops[|ops| - 1];
      CountRollbacks(st, init, id) + if RollsBack(After(st, init), last, id) then 1 else 0
  }

  /** The contract handed over is the one stored. */
  predicate Fresh(st: Contracts, c: Contract) {
    c.id in st && st[c.id] == c
  }

  ghost predicate FreshRollbacks(st: Contracts, ops: seq<Op>) {
    forall i :: 0 <= i < |ops| && ops[i].Rollback? ==> Fresh(After(st, ops[..i]), ops[i].given)
  }

  ghost predicate FreshExecutes(st: Contracts, ops: seq<Op>) {
    forall i :: 0 <= i < |ops| && ops[i].Execute? ==> Fresh(After(st, ops[..i]), ops[i].given)
  }

  lemma Prefixes(ops: seq<Op>)
    requires ops != []
    ensures forall i :: 0 <= i < |ops| ==> ops[..|ops| - 1][..i] == ops[..i]
  {
  }

  // -------------------------------------------------------------------- main results

  /** In every run a stored contract stays, only its status changes, and it
      never becomes open again. */
  lemma {:induction false} OnlyStatusChanges(st: Contracts, ops: seq<Op>, id: string)
    requires NewIds(st, ops) && id in st
    ensures var now := After(st, ops);
      && id in now && now[id] == st[id].(status := now[id].status)
      && (now[id].status.Open? ==> st[id].status.Open?)
  {
    if ops != [] {
      Prefixes(ops);
      OnlyStatusChanges(st, ops[..|ops| - 1], id);
    }
  }

  /** Reading never reports a contract as open past its expiry, and changes
      nothing else. */
  lemma NeverOpenPastExpiry(st: Contracts, ops: seq<Op>, id: string, now: int)
    ensures var before, seen := After(st, ops), After(st, ops + [Get(id, now)]);
      && seen.Keys == before.Keys && (forall other :: other in seen && other != id ==> seen[other] == before[other])
      && (id in seen ==>
            && (seen[id].status.Open? <==> before[id].status.Open? && now < seen[id].expiresAt)
            && (seen[id].status.Expired? <==> before[id].status.Expired? || (before[id].status.Open? && seen[id].expiresAt <= now))
            && (seen[id].status.Committed? <==> before[id].status.Committed?))
  {
    assert (ops + [Get(id, now)])[..|ops|] == ops;
  }

  /** With fresh reads the answer is that the plan ran exactly when the store says
      committed; success then marks the contract, and nothing else changes. */
  lemma RunsOnlyWhenCommitted(st: Contracts, ops: seq<Op>, i: nat)
    requires FreshRollbacks(st, ops) && i < |ops| && ops[i].Rollback?
    ensures var id := ops[i].given.id; var before, after := After(st, ops[..i]), After(st, ops[..i + 1]);
      && id in before
      && (Runs(before, ops[i], id) <==> before[id].status.Committed?)
      && after == if before[id].status.Committed? && ops[i].succeeds then before[id := before[id].(status := RolledBack)] else before
  {
    assert ops[..i + 1][..i] == ops[..i];
  }

  /** And the answer to an execution is success exactly when the store moves to
      committed, which needs confirmation, admission, an open contract before its
      expiry, and a request that succeeds. */
  lemma CommitsExactly(st: Contracts, ops: seq<Op>, i: nat)
    requires FreshExecutes(st, ops) && i < |ops| && ops[i].Execute?
    ensures var op := ops[i]; var id := op.given.id; var before, after := After(st, ops[..i]), After(st, ops[..i + 1]);
      && id in before && id in after
      && (Commits(before, op, id) <==> !before[id].status.Committed? && after[id].status.Committed?)
      && (Commits(before, op, id) <==>
            op.confirm && op.admitted && op.succeeds && before[id].status.Open? && op.at < before[id].expiresAt)
      && after == if Commits(before, op, id) then before[id := before[id].(status := Committed)] else before
  {
    assert ops[..i + 1][..i] == ops[..i];
  }

  lemma {:induction false} Tally(ops: seq<Op>, id: string)
    requires NewIds(map[], ops) && FreshRollbacks(map[], ops)
    ensures var now := After(map[], ops);
      && CountRollbacks(map[], ops, id) <= CountCommits(map[], ops, id)
      && (id in now && now[id].status.Committed? ==> CountRollbacks(map[], ops, id) < CountCommits(map[], ops, id))
  {
    if ops != [] {
      Prefixes(ops);
      Tally(ops[..|ops| - 1], id);
    }
  }

  /** And it succeeds at most once for each commit: between two successes there
      is a commit. */
  lemma OneRollbackPerCommit(ops: seq<Op>, id: string)
    requires NewIds(map[], ops) && FreshRollbacks(map[], ops)
    ensures CountRollbacks(map[], ops, id) <= CountCommits(map[], ops, id)
  {
    Tally(ops, id);
  }

  lemma {:induction false} FreshTally(ops: seq<Op>, id: string)
    requires NewIds(map[], ops) && FreshRollbacks(map[], ops) && FreshExecutes(map[], ops)
    ensures var now := After(map[], ops);
      CountCommits(map[], ops, id) == if id in now && (now[id].status.Committed? || now[id].status.RolledBack?) then 1 else 0
  {
    if ops != [] {
      Prefixes(ops);
      FreshTally(ops[..|ops| - 1], id);
    }
  }

  /** When execution is also given fresh reads, a contract commits at most once
      and rolls back at most once, ever. */
  lemma CommitsOnceRollsBackOnce(ops: seq<Op>, id: string)
    requires NewIds(map[], ops) && FreshRollbacks(map[], ops) && FreshExecutes(map[], ops)
    ensures CountRollbacks(map[], ops, id) <= CountCommits(map[], ops, id) <= 1
  {
    Tally(ops, id);
    FreshTally(ops, id);
  }

  lemma Counted(ops: seq<Op>, op: Op, id: string)
    ensures CountCommits(map[], ops + [op], id) == CountCommits(map[], ops, id) + if Commits(After(map[], ops), op, id) then 1 else 0
    ensures CountRollbacks(map[], ops + [op], id) == CountRollbacks(map[], ops, id) + if RollsBack(After(map[], ops), op, id) then 1 else 0
    ensures After(map[], ops + [op]) == Next(After(map[], ops), op)
  {
    assert (ops + [op])[..|ops|] == ops;
  }

  function Replay(c: Contract): seq<Op> {
    var done := c.(status := Committed);
    [Create(c)] + [Execute(c, true, true, c.expiresAt - 1, true)] + [Rollback(done, true)] + [Rollback(done, true)]
  }

  /** A stale committed copy rolls back a second time. */
  lemma StaleCopyReplays(c: Contract)
    requires c.status.Open?
    ensures NewIds(map[], Replay(c)) && CountCommits(map[], Replay(c), c.id) == 1 && CountRollbacks(map[], Replay(c), c.id) == 2
  {
    var done := c.(status := Committed);
    var a, b, r := Create(c), Execute(c, true, true, c.expiresAt - 1, true), Rollback(done, true);
    Counted([], a, c.id);
    assert [] + [a] == [a];
    Counted([a], b, c.id);
    Counted([a] + [b], r, c.id);
    Counted([a] + [b] + [r], r, c.id);
    assert Replay(c)[..0] == [];
  }
}
