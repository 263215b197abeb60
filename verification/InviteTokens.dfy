/** Single-use tokens in the email_codes table (backend/internal/invite/store.go). */
module InviteTokens {
  import opened Wrappers
  import opened Clock

  type IdentityId = nat
  type Token = string

  datatype Purpose = Invite | PasswordReset

  /** SHA-256, taken as injective. */
  datatype Digest = Digest(preimage: Token)

  function HashToken(raw: Token): Digest {
    Digest(raw)
  }

  const TOKEN_EXPIRY := 7 * DAY
  const RESET_EXPIRY := HOUR

  function Lifetime(p: Purpose): Time {
    match p case Invite => TOKEN_EXPIRY case PasswordReset => RESET_EXPIRY
  }

  /** A row of email_codes; its id is its insertion position. */
  datatype Row = Row(identity: IdentityId, hash: Digest, purpose: Purpose,
                     expiresAt: Time, usedAt: Option<Time>, createdAt: Time)

  datatype Outcome = Valid(id: nat, identity: IdentityId) | NotFound | Expired

  // ---------- The statements ----------

  function Invalidate(rows: seq<Row>, identity: IdentityId, p: Purpose, now: Time): seq<Row> {
    seq(|rows|, i requires 0 <= i < |rows| =>
      if rows[i].identity == identity && rows[i].purpose == p && rows[i].usedAt.None?
      then rows[i].(usedAt := Some(now)) else rows[i])
  }

  function Insert(rows: seq<Row>, identity: IdentityId, p: Purpose, raw: Token, now: Time): seq<Row> {
    rows + [Row(identity, HashToken(raw), p, now + Lifetime(p), None, now)]
  }

  /** One call that nothing interrupts: a failing invalidation is ignored. */
  function Issue(rows: seq<Row>, identity: IdentityId, p: Purpose, raw: Token, now: Time, invalidated: bool): seq<Row> {
    Insert(if invalidated then Invalidate(rows, identity, p, now) else rows, identity, p, raw, now)
  }

  function Use(rows: seq<Row>, id: nat, now: Time): seq<Row> {
    if id < |rows| then rows[id := rows[id].(usedAt := Some(now))] else rows
  }

  /** The newest unused row with this hash and purpose. */
  function Lookup(rows: seq<Row>, p: Purpose, hash: Digest): (r: Option<nat>)
    ensures r.Some? ==> r.value < |rows| && rows[r.value].hash == hash && rows[r.value].purpose == p
    ensures r.Some? ==> rows[r.value].usedAt.None?
    ensures r.None? ==>
              forall i | 0 <= i < |rows| && rows[i].hash == hash && rows[i].purpose == p :: rows[i].usedAt.Some?
  {
    if rows == [] then None
    else
      var n := |rows| - 1;
      var best := Lookup(rows[..n], p, hash);
      assert forall i | 0 <= i < n :: rows[i] == rows[..n][i];
      if rows[n].hash == hash && rows[n].purpose == p && rows[n].usedAt.None? &&
         (best.None? || rows[n].createdAt > rows[best.value].createdAt)
      then Some(n) else best
  }

  function Check(rows: seq<Row>, p: Purpose, raw: Token, now: Time): Outcome {
    match Lookup(rows, p, HashToken(raw))
    case None => NotFound
    case Some(i) => if now > rows[i].expiresAt then Expired else Valid(i, rows[i].identity)
  }

  class TokenStore {
    var rows: seq<Row>

    constructor ()
      ensures rows == []
    {
      rows := [];
    }

    /** `raw` is the random token, which the caller gets back; `invalidated` is whether the
        first UPDATE succeeded. */
    method Generate(identity: IdentityId, raw: Token, now: Time, invalidated: bool) returns (token: Token)
      modifies this
      ensures token == raw && rows == Issue(old(rows), identity, Invite, raw, now, invalidated)
    {
      var hash := HashToken(raw);
      if invalidated {
        rows := Invalidate(rows, identity, Invite, now);
      }
      rows := rows + [Row(identity, hash, Invite, now + TOKEN_EXPIRY, None, now)];
      token := raw;
    }

    method GeneratePasswordReset(identity: IdentityId, raw: Token, now: Time, invalidated: bool) returns (token: Token)
      modifies this
      ensures token == raw && rows == Issue(old(rows), identity, PasswordReset, raw, now, invalidated)
    {
      var hash := HashToken(raw);
      if invalidated {
        rows := Invalidate(rows, identity, PasswordReset, now);
      }
      rows := rows + [Row(identity, hash, PasswordReset, now + RESET_EXPIRY, None, now)];
      token := raw;
    }

    method Validate(raw: Token, now: Time) returns (r: Outcome)
      ensures r == Check(rows, Invite, raw, now)
    {
      var found := Lookup(rows, Invite, HashToken(raw));
      if found.None? {
        return NotFound;
      }
      if now > rows[found.value].expiresAt {
        return Expired;
      }
      return Valid(found.value, rows[found.value].identity);
    }

    method ValidatePasswordReset(raw: Token, now: Time) returns (r: Outcome)
      ensures r == Check(rows, PasswordReset, raw, now)
    {
      var found := Lookup(rows, PasswordReset, HashToken(raw));
      if found.None? {
        return NotFound;
      }
      if now > rows[found.value].expiresAt {
        return Expired;
      }
      return Valid(found.value, rows[found.value].identity);
    }

    method MarkUsed(id: nat, now: Time)
      modifies this
      ensures rows == Use(old(rows), id, now)
    {
      if id < |rows| {
        rows := rows[id := rows[id].(usedAt := Some(now))];
      }
    }
  }

  // ---------- Statements in any order ----------

  /** The statements that succeed. A generation is two of them, the first of which may be
      missing, and statements of other calls may come in between. */
  datatype Op =
    | Invalidated(identity: IdentityId, purpose: Purpose, now: Time)
    | Inserted(identity: IdentityId, purpose: Purpose, raw: Token, now: Time)
    | MarkedUsed(id: nat, now: Time)

  function Execute(rows: seq<Row>, op: Op): seq<Row> {
    match op
    case Invalidated(identity, p, now) => Invalidate(rows, identity, p, now)
    case Inserted(identity, p, raw, now) => Insert(rows, identity, p, raw, now)
    case MarkedUsed(id, now) => Use(rows, id, now)
  }

  function Table(ops: seq<Op>): seq<Row> {
    if ops == [] then [] else Execute(Table(ops[..|ops| - 1]), ops[|ops| - 1])
  }

  datatype Issued = Issued(id: nat, raw: Token, expiresAt: Time)

  function InsertedCount(ops: seq<Op>): nat {
    if ops == [] then 0 else InsertedCount(ops[..|ops| - 1]) + if ops[|ops| - 1].Inserted? then 1 else 0
  }

  /** The tokens outstanding for an identity and purpose: those inserted since the last
      invalidation, except those marked used. */
  function Outstanding(ops: seq<Op>, identity: IdentityId, p: Purpose): set<Issued> {
    if ops == [] then {}
    else
      var front := ops[..|ops| - 1];
      OutstandingAfter(Outstanding(front, identity, p), ops[|ops| - 1], InsertedCount(front), identity, p)
  }

  function Without(before: set<Issued>, id: nat): set<Issued> {
    set e | e in before && e.id != id
  }

  function OutstandingAfter(before: set<Issued>, op: Op, id: nat, identity: IdentityId, p: Purpose): set<Issued> {
    match op
    case Invalidated(i, q, _) => if i == identity && q == p then {} else before
    case Inserted(i, q, raw, now) =>
      if i == identity && q == p then before + {Issued(id, raw, now + Lifetime(p))} else before
    case MarkedUsed(used, _) => Without(before, used)
  }

  ghost predicate FreshTokens(ops: seq<Op>) {
    forall i, j | 0 <= i < j < |ops| && ops[i].Inserted? && ops[j].Inserted? :: ops[i].raw != ops[j].raw
  }

  /** Row j is unused exactly while its token is outstanding. */
  ghost predicate RowMatches(ops: seq<Op>, rows: seq<Row>, j: nat)
    requires j < |rows|
  {
    var row := rows[j];
    row.usedAt.None? <==> Issued(j, row.hash.preimage, row.expiresAt) in Outstanding(ops, row.identity, row.purpose)
  }

  /** Every outstanding token is an unused row. */
  ghost predicate TokenMatches(ops: seq<Op>, rows: seq<Row>, identity: IdentityId, p: Purpose, e: Issued) {
    e in Outstanding(ops, identity, p) ==>
      e.id < |rows| && RowHolds(rows[e.id], identity, p, e)
  }

  predicate RowHolds(row: Row, identity: IdentityId, p: Purpose, e: Issued) {
    && row.identity == identity && row.purpose == p && row.hash == HashToken(e.raw)
    && row.expiresAt == e.expiresAt && row.usedAt.None?
  }

  lemma {:induction false} TableRefinesSlots(ops: seq<Op>)
    ensures |Table(ops)| == InsertedCount(ops)
    ensures forall j | 0 <= j < |Table(ops)| :: RowMatches(ops, Table(ops), j)
    ensures forall identity, p, e :: TokenMatches(ops, Table(ops), identity, p, e)
  {
    if ops != [] {
      var front := ops[..|ops| - 1];
      TableRefinesSlots(front);
      var before, rows := Table(front), Table(ops);
      forall identity, p, e
        ensures TokenMatches(ops, rows, identity, p, e)
      {
        assert TokenMatches(front, before, identity, p, e);
      }
      forall j | 0 <= j < |rows|
        ensures RowMatches(ops, rows, j)
      {
        if j < |before| {
          assert RowMatches(front, before, j);
          var row := before[j];
          assert TokenMatches(front, before, row.identity, row.purpose, Issued(j, row.hash.preimage, row.expiresAt));
        } else {
          assert TokenMatches(ops, rows, rows[j].identity, rows[j].purpose,
                              Issued(j, rows[j].hash.preimage, rows[j].expiresAt));
        }
      }
    }
  }

  ghost predicate HashKnown(ops: seq<Op>, h: Digest) {
    exists k | 0 <= k < |ops| :: ops[k].Inserted? && h == HashToken(ops[k].raw)
  }

  lemma KnownLater(ops: seq<Op>, op: Op, h: Digest)
    ensures HashKnown(ops + [op], h) <==> HashKnown(ops, h) || (op.Inserted? && h == HashToken(op.raw))
  {
    var all := ops + [op];
    if HashKnown(ops, h) {
      var k :| 0 <= k < |ops| && ops[k].Inserted? && h == HashToken(ops[k].raw);
      assert all[k] == ops[k];
    }
    assert all[|ops|] == op;
  }

  lemma {:induction false} HashesAreFresh(ops: seq<Op>)
    requires FreshTokens(ops)
    ensures forall j | 0 <= j < |Table(ops)| :: HashKnown(ops, Table(ops)[j].hash)
    ensures forall i, j | 0 <= i < j < |Table(ops)| :: Table(ops)[i].hash != Table(ops)[j].hash
  {
    if ops != [] {
      var front, op := ops[..|ops| - 1], ops[|ops| - 1];
      HashesAreFresh(front);
      var before, rows := Table(front), Table(ops);
      assert ops == front + [op];
      forall j | 0 <= j < |rows|
        ensures HashKnown(ops, rows[j].hash)
        ensures j < |before| ==> rows[j].hash == before[j].hash
      {
        KnownLater(front, op, rows[j].hash);
      }
      if op.Inserted? {
        assert !HashKnown(front, HashToken(op.raw));
      }
    }
  }

  lemma OneRowPerHash(ops: seq<Op>, i: nat, j: nat)
    requires FreshTokens(ops) && i < |Table(ops)| && j < |Table(ops)| && Table(ops)[i].hash == Table(ops)[j].hash
    ensures i == j
  {
    HashesAreFresh(ops);
  }

  lemma {:induction false} OutstandingIsFound(ops: seq<Op>, p: Purpose, raw: Token, i: IdentityId, k: nat, e: Time)
    requires FreshTokens(ops) && Issued(k, raw, e) in Outstanding(ops, i, p)
    ensures Lookup(Table(ops), p, HashToken(raw)) == Some(k)
    ensures Table(ops)[k].identity == i && Table(ops)[k].expiresAt == e
  {
    TableRefinesSlots(ops);
    assert TokenMatches(ops, Table(ops), i, p, Issued(k, raw, e));
    OneRowPerHash(ops, k, Lookup(Table(ops), p, HashToken(raw)).value);
  }

  lemma {:induction false} FoundIsOutstanding(ops: seq<Op>, p: Purpose, raw: Token)
    requires Lookup(Table(ops), p, HashToken(raw)).Some?
    ensures var k := Lookup(Table(ops), p, HashToken(raw)).value;
            Issued(k, raw, Table(ops)[k].expiresAt) in Outstanding(ops, Table(ops)[k].identity, p)
  {
    TableRefinesSlots(ops);
    assert RowMatches(ops, Table(ops), Lookup(Table(ops), p, HashToken(raw)).value);
  }

  /** With fresh tokens, a raw token validates for a purpose exactly while it is outstanding
      for some identity and that purpose and is not past its expiry; past it, the answer is
      Expired; in every other case NotFound. */
  lemma {:induction false} ValidatesIffOutstanding(ops: seq<Op>, p: Purpose, raw: Token, t: Time,
                                                   identity: IdentityId, id: nat)
    requires FreshTokens(ops)
    ensures Check(Table(ops), p, raw, t) == Valid(id, identity) <==>
            exists e :: Issued(id, raw, e) in Outstanding(ops, identity, p) && t <= e
    ensures Check(Table(ops), p, raw, t) == Expired <==>
            exists i: nat, k: nat, e :: Issued(k, raw, e) in Outstanding(ops, i, p) && t > e
  {
    var found := Lookup(Table(ops), p, HashToken(raw));
    if found.Some? { FoundIsOutstanding(ops, p, raw); }
    forall i: nat, k: nat, e | Issued(k, raw, e) in Outstanding(ops, i, p)
      ensures found == Some(k) && Table(ops)[k].identity == i && Table(ops)[k].expiresAt == e
    {
      OutstandingIsFound(ops, p, raw, i, k, e);
    }
  }

  /** An invalidation keeps the instant at which a token was used before. */
  lemma InvalidationKeepsUse(rows: seq<Row>, identity: IdentityId, p: Purpose, now: Time, i: nat)
    requires i < |rows|
    ensures Invalidate(rows, identity, p, now)[i] ==
            if rows[i].usedAt == None && rows[i].identity == identity && rows[i].purpose == p
            then rows[i].(usedAt := Some(now)) else rows[i]
  {
  }

  /** Some of the statements invalidates the identity's tokens, or marks this one used. */
  ghost predicate Retires(later: seq<Op>, identity: IdentityId, p: Purpose, id: nat) {
    exists k | 0 <= k < |later| :: RetiredBy(later[k], identity, p, id)
  }

  predicate RetiredBy(op: Op, identity: IdentityId, p: Purpose, id: nat) {
    match op
    case Invalidated(i, q, _) => i == identity && q == p
    case Inserted(_, _, _, _) => false
    case MarkedUsed(used, _) => used == id
  }

  /** What later statements make of a row. */
  lemma {:induction false} RowLater(ops: seq<Op>, later: seq<Op>, id: nat)
    requires id < |Table(ops)|
    ensures var row, rows := Table(ops)[id], Table(ops + later);
            && id < |rows| && rows[id].(usedAt := row.usedAt) == row
            && (rows[id].usedAt.None? <==> row.usedAt.None? && !Retires(later, row.identity, row.purpose, id))
  {
    if later == [] {
      assert ops + later == ops;
    } else {
      var front, op := later[..|later| - 1], later[|later| - 1];
      var row := Table(ops)[id];
      RowLater(ops, front, id);
      assert (ops + later)[..|ops + later| - 1] == ops + front;
      RetiresLast(later, row.identity, row.purpose, id);
    }
  }

  lemma {:induction false} RetiresLast(later: seq<Op>, identity: IdentityId, p: Purpose, id: nat)
    requires later != []
    ensures Retires(later, identity, p, id) <==>
            Retires(later[..|later| - 1], identity, p, id) || RetiredBy(later[|later| - 1], identity, p, id)
  {
    var front := later[..|later| - 1];
    if Retires(front, identity, p, id) {
      var k :| 0 <= k < |front| && RetiredBy(front[k], identity, p, id);
      assert RetiredBy(later[k], identity, p, id);
    }
    if Retires(later, identity, p, id) {
      var k :| 0 <= k < |later| && RetiredBy(later[k], identity, p, id);
      assert k < |front| ==> RetiredBy(front[k], identity, p, id);
    }
  }

  /** A token that validates keeps validating, whatever statements follow, until one of them
      invalidates its identity's tokens of that purpose or marks it used; it does not matter
      which call the invalidation belongs to. */
  lemma OldTokenSurvivesIff(ops: seq<Op>, later: seq<Op>, p: Purpose, raw: Token, t: Time,
                            identity: IdentityId, id: nat)
    requires FreshTokens(ops + later) && Check(Table(ops), p, raw, t) == Valid(id, identity)
    ensures Check(Table(ops + later), p, raw, t) ==
            if Retires(later, identity, p, id) then NotFound else Valid(id, identity)
  {
    RowLater(ops, later, id);
    var found := Lookup(Table(ops + later), p, HashToken(raw));
    if found.Some? {
      OneRowPerHash(ops + later, id, found.value);
    }
  }

  /** How long a token is good for, in seconds: an invite seven days, a reset one hour. */
  ghost predicate InTime(p: Purpose, now: Time, t: Time) {
    match p case Invite => t <= now + 604800 case PasswordReset => t <= now + 3600
  }

  /** A token validates from its INSERT on, for its own purpose, until its time is over. */
  lemma NewTokenValidates(ops: seq<Op>, identity: IdentityId, p: Purpose, raw: Token, now: Time, t: Time)
    requires FreshTokens(ops + [Inserted(identity, p, raw, now)])
    ensures Check(Table(ops + [Inserted(identity, p, raw, now)]), p, raw, t) ==
            if InTime(p, now, t) then Valid(|Table(ops)|, identity) else Expired
    ensures forall q | q != p :: Check(Table(ops + [Inserted(identity, p, raw, now)]), q, raw, t) == NotFound
  {
    var all := ops + [Inserted(identity, p, raw, now)];
    assert all[..|ops|] == ops;
    OneRowPerHash(all, |Table(ops)|, Lookup(Table(all), p, HashToken(raw)).value);
    forall q | q != p
      ensures Check(Table(all), q, raw, t) == NotFound
    {
      if Lookup(Table(all), q, HashToken(raw)).Some? {
        OneRowPerHash(all, |Table(ops)|, Lookup(Table(all), q, HashToken(raw)).value);
      }
    }
  }

  /** Together: from its INSERT on, a token is found if and only if no successful invalidation
      for its identity and purpose, and no mark, comes after the INSERT; and then it validates
      until its time is over. */
  lemma TokenLivesIff(ops: seq<Op>, identity: IdentityId, p: Purpose, raw: Token, now: Time, later: seq<Op>, t: Time)
    requires FreshTokens(ops + [Inserted(identity, p, raw, now)] + later)
    ensures Check(Table(ops + [Inserted(identity, p, raw, now)] + later), p, raw, t) ==
            if Retires(later, identity, p, |Table(ops)|) then NotFound
            else if InTime(p, now, t) then Valid(|Table(ops)|, identity)
            else Expired
  {
    var first := ops + [Inserted(identity, p, raw, now)];
    assert forall k | 0 <= k < |first| :: first[k] == (first + later)[k];
    RowLater(first, later, |Table(ops)|);
    assert first[..|ops|] == ops;
    var found := Lookup(Table(first + later), p, HashToken(raw));
    if found.Some? { OneRowPerHash(first + later, |Table(ops)|, found.value); }
  }

  /** Two overlapping calls: each invalidates before either inserts, and every statement
      succeeds. Both tokens validate. */
  lemma {:induction false} OverlappingInvitesBothValidate(identity: IdentityId)
    ensures var ops := [Invalidated(identity, Invite, 0), Invalidated(identity, Invite, 1),
                        Inserted(identity, Invite, "a", 2), Inserted(identity, Invite, "b", 3)];
            && FreshTokens(ops)
            && Check(Table(ops), Invite, "a", 4) == Valid(0, identity)
            && Check(Table(ops), Invite, "b", 4) == Valid(1, identity)
  {
    var before := [Invalidated(identity, Invite, 0), Invalidated(identity, Invite, 1)];
    BothValidate(before, identity);
    assert before + [Inserted(identity, Invite, "a", 2), Inserted(identity, Invite, "b", 3)] ==
           [Invalidated(identity, Invite, 0), Invalidated(identity, Invite, 1),
            Inserted(identity, Invite, "a", 2), Inserted(identity, Invite, "b", 3)];
  }

  /** Two invites, the second after an invalidation that failed: both validate too. */
  lemma {:induction false} BothInvitesValidate(identity: IdentityId)
    ensures var calls := [Generated(identity, Invite, "a", 2, false), Generated(identity, Invite, "b", 3, false)];
            && FreshTokens(Statements(calls))
            && Check(Table(Statements(calls)), Invite, "a", 4) == Valid(0, identity)
            && Check(Table(Statements(calls)), Invite, "b", 4) == Valid(1, identity)
  {
    var first := Generated(identity, Invite, "a", 2, false);
    var calls := [first, Generated(identity, Invite, "b", 3, false)];
    BothValidate([], identity);
    assert calls[..1] == [first] && [first][..0] == [];
    assert Statements([first]) == StatementsOf(first);
    assert Statements(calls) == [] + [Inserted(identity, Invite, "a", 2), Inserted(identity, Invite, "b", 3)];
  }

  lemma {:induction false} NothingToInvalidate(before: seq<Op>)
    requires forall k | 0 <= k < |before| :: before[k].Invalidated?
    ensures Table(before) == []
  {
    if before != [] { NothingToInvalidate(before[..|before| - 1]); }
  }

  lemma {:induction false} BothValidate(before: seq<Op>, identity: IdentityId)
    requires forall k | 0 <= k < |before| :: before[k].Invalidated?
    ensures var ops := before + [Inserted(identity, Invite, "a", 2), Inserted(identity, Invite, "b", 3)];
            && FreshTokens(ops)
            && Check(Table(ops), Invite, "a", 4) == Valid(0, identity)
            && Check(Table(ops), Invite, "b", 4) == Valid(1, identity)
  {
    var a, b := Inserted(identity, Invite, "a", 2), Inserted(identity, Invite, "b", 3);
    NothingToInvalidate(before);
    assert before + [a, b] == before + [a] + [b];
    TwoFreshTokens(before, a, b);
    TokenLivesIff(before, identity, Invite, "a", 2, [b], 4);
    NewTokenValidates(before + [a], identity, Invite, "b", 3, 4);
    assert (before + [a])[..|before|] == before;
    assert !Retires([b], identity, Invite, 0);
  }

  lemma {:induction false} TwoFreshTokens(before: seq<Op>, a: Op, b: Op)
    requires forall k | 0 <= k < |before| :: before[k].Invalidated?
    requires a.Inserted? && b.Inserted? && a.raw != b.raw
    ensures FreshTokens(before + [a] + [b])
  {
  }

  // ---------- Calls that do not overlap: one slot per identity and purpose ----------

  datatype Call =
    | Generated(identity: IdentityId, purpose: Purpose, raw: Token, now: Time, invalidated: bool)
    | Used(id: nat, now: Time)

  function StatementsOf(c: Call): seq<Op> {
    match c
    case Generated(identity, p, raw, now, invalidated) =>
      (if invalidated then [Invalidated(identity, p, now)] else []) + [Inserted(identity, p, raw, now)]
    case Used(id, now) => [MarkedUsed(id, now)]
  }

  /** The statements of calls that run one after the other. */
  function Statements(calls: seq<Call>): seq<Op> {
    if calls == [] then [] else Statements(calls[..|calls| - 1]) + StatementsOf(calls[|calls| - 1])
  }

  lemma {:induction false} OneMore(ops: seq<Op>, op: Op, identity: IdentityId, p: Purpose)
    ensures Table(ops + [op]) == Execute(Table(ops), op)
    ensures InsertedCount(ops + [op]) == InsertedCount(ops) + if op.Inserted? then 1 else 0
    ensures Outstanding(ops + [op], identity, p) ==
            OutstandingAfter(Outstanding(ops, identity, p), op, InsertedCount(ops), identity, p)
  {
    assert (ops + [op])[..|ops|] == ops;
  }

  /** What one call makes of the table is what the methods of the store do. */
  function StoreAfter(rows: seq<Row>, c: Call): seq<Row> {
    match c
    case Generated(identity, p, raw, now, invalidated) => Issue(rows, identity, p, raw, now, invalidated)
    case Used(id, now) => Use(rows, id, now)
  }

  function CallOutstanding(before: set<Issued>, c: Call, id: nat, identity: IdentityId, p: Purpose): set<Issued> {
    match c
    case Generated(i, q, raw, now, invalidated) =>
      if i == identity && q == p then (if invalidated then {} else before) + {Issued(id, raw, now + Lifetime(p))}
      else before
    case Used(used, _) => Without(before, used)
  }

  lemma {:induction false} StatementsSplit(ops: seq<Op>, c: Call)
    requires c.Generated?
    ensures var first := Invalidated(c.identity, c.purpose, c.now);
            var second := Inserted(c.identity, c.purpose, c.raw, c.now);
            ops + StatementsOf(c) == (if c.invalidated then ops + [first] else ops) + [second]
  {
  }

  lemma {:induction false} TableOfCall(ops: seq<Op>, c: Call)
    ensures Table(ops + StatementsOf(c)) == StoreAfter(Table(ops), c)
  {
    if c.Used? {
      OneMore(ops, MarkedUsed(c.id, c.now), 0, Invite);
    } else {
      var first := Invalidated(c.identity, c.purpose, c.now);
      var second := Inserted(c.identity, c.purpose, c.raw, c.now);
      StatementsSplit(ops, c);
      OneMore(ops, first, 0, Invite);
      OneMore(if c.invalidated then ops + [first] else ops, second, 0, Invite);
    }
  }

  lemma {:induction false} CallIsStatements(before: set<Issued>, c: Call, id: nat, identity: IdentityId, p: Purpose)
    requires c.Generated?
    ensures var first := Invalidated(c.identity, c.purpose, c.now);
            var second := Inserted(c.identity, c.purpose, c.raw, c.now);
            CallOutstanding(before, c, id, identity, p) ==
            OutstandingAfter(if c.invalidated then OutstandingAfter(before, first, id, identity, p) else before,
                             second, id, identity, p)
  {
  }

  lemma {:induction false} OutstandingOfCall(ops: seq<Op>, c: Call, identity: IdentityId, p: Purpose)
    ensures Outstanding(ops + StatementsOf(c), identity, p) ==
            CallOutstanding(Outstanding(ops, identity, p), c, InsertedCount(ops), identity, p)
  {
    if c.Used? {
      OneMore(ops, MarkedUsed(c.id, c.now), identity, p);
    } else {
      var first := Invalidated(c.identity, c.purpose, c.now);
      var second := Inserted(c.identity, c.purpose, c.raw, c.now);
      StatementsSplit(ops, c);
      CallIsStatements(Outstanding(ops, identity, p), c, InsertedCount(ops), identity, p);
      if c.invalidated {
        OneMore(ops, first, identity, p);
        OneMore(ops + [first], second, identity, p);
      } else {
        OneMore(ops, second, identity, p);
      }
    }
  }

  /** The one slot: the token last generated, unless it has been marked used. */
  function Slot(calls: seq<Call>, identity: IdentityId, p: Purpose): Option<Issued> {
    if calls == [] then None
    else
      var front := calls[..|calls| - 1];
      SlotAfter(Slot(front, identity, p), calls[|calls| - 1], InsertedCount(Statements(front)), identity, p)
  }

  function SlotAfter(before: Option<Issued>, c: Call, id: nat, identity: IdentityId, p: Purpose): Option<Issued> {
    match c
    case Generated(i, q, raw, now, _) =>
      if i == identity && q == p then Some(Issued(id, raw, now + Lifetime(p))) else before
    case Used(used, _) =>
      if before.Some? && before.value.id == used then None else before
  }

  function Content(slot: Option<Issued>): set<Issued> {
    match slot case None => {} case Some(e) => {e}
  }

  /** With its invalidation, a call replaces the content of the slot. */
  lemma {:induction false} CallKeepsSlot(before: Option<Issued>, c: Call, id: nat, identity: IdentityId, p: Purpose)
    requires c.Generated? && c.identity == identity && c.purpose == p ==> c.invalidated
    ensures CallOutstanding(Content(before), c, id, identity, p) == Content(SlotAfter(before, c, id, identity, p))
  {
  }

  ghost predicate InvalidationsSucceed(calls: seq<Call>, identity: IdentityId, p: Purpose) {
    forall k | 0 <= k < |calls| && calls[k].Generated? && calls[k].identity == identity && calls[k].purpose == p ::
      calls[k].invalidated
  }

  /** While calls do not overlap and invalidations succeed, the outstanding tokens are the
      content of one slot. */
  lemma {:induction false} OneSlot(calls: seq<Call>, identity: IdentityId, p: Purpose)
    requires InvalidationsSucceed(calls, identity, p)
    ensures Outstanding(Statements(calls), identity, p) == Content(Slot(calls, identity, p))
  {
    if calls != [] {
      var front, c := calls[..|calls| - 1], calls[|calls| - 1];
      OneSlot(front, identity, p);
      OutstandingOfCall(Statements(front), c, identity, p);
      CallKeepsSlot(Slot(front, identity, p), c, InsertedCount(Statements(front)), identity, p);
    }
  }

  /** ... so exactly the token last generated for the identity and purpose validates, until it
      is marked used or expires. */
  lemma ValidatesIffCurrent(calls: seq<Call>, p: Purpose, raw: Token, t: Time, identity: IdentityId, id: nat)
    requires FreshTokens(Statements(calls)) && InvalidationsSucceed(calls, identity, p)
    ensures Check(Table(Statements(calls)), p, raw, t) == Valid(id, identity) <==>
            exists e :: Slot(calls, identity, p) == Some(Issued(id, raw, e)) && t <= e
  {
    ValidatesIffOutstanding(Statements(calls), p, raw, t, identity, id);
    OneSlot(calls, identity, p);
  }

  /** A token is good for one use: once the row it validated to is marked used, it is not
      found again at any time, whatever is generated or used afterwards. */
  lemma UsedTokenIsGone(ops: seq<Op>, later: seq<Op>, p: Purpose, q: Purpose, raw: Token, now: Time, t: Time,
                        id: nat, identity: IdentityId)
    requires Check(Table(ops), p, raw, now) == Valid(id, identity)
    requires FreshTokens(ops + [MarkedUsed(id, now)] + later)
    ensures Check(Table(ops + [MarkedUsed(id, now)] + later), q, raw, t) == NotFound
  {
    var rest := [MarkedUsed(id, now)] + later;
    assert ops + [MarkedUsed(id, now)] + later == ops + rest;
    RowLater(ops, rest, id);
    assert RetiredBy(rest[0], identity, p, id);
    var found := Lookup(Table(ops + rest), q, HashToken(raw));
    if found.Some? {
      OneRowPerHash(ops + rest, id, found.value);
    }
  }
}
