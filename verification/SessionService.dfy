/** The session calls as methods of one object; run alone, each is the uninterrupted run of its steps in Sessions. */
module SessionService {
  import opened Options
  import opened Sessions

  datatype RefreshResult = InvalidToken | NotFound | Reused | Ended | Refreshed(claims: Claims)

  /** The steps of one RefreshToken call, with nothing in between. */
  ghost function RefreshAlone(dig: Digest, cfg: Settings, s: State, c: Claims, now: int, newJti: string,
                              token: string): State {
    var s1 := Step(dig, cfg, s, Present(0, c, now));
    var s2 := Step(dig, cfg, s1, ReadRow(0));
    var s3 := Step(dig, cfg, s2, Check(0, now, newJti));
    var s4 := Step(dig, cfg, s3, Swap(0, token));
    Step(dig, cfg, s4, Revoke(0))
  }

  ghost function ValidateAlone(dig: Digest, cfg: Settings, s: State, token: string, now: int): State {
    var s1 := Step(dig, cfg, s, Validate(0, token));
    var s2 := Step(dig, cfg, s1, ValidateCheck(0, now));
    var s3 := Step(dig, cfg, s2, Slide(0));
    Step(dig, cfg, s3, Revoke(0))
  }

  /** What an uninterrupted refresh comes to. */
  ghost function RefreshOutcome(dig: Digest, cfg: Settings, s: State, c: Claims, now: int, newJti: string,
                                token: string): State {
    var found := FindRow(s.rows, c.username, c.sessionId, s.nextId);
    if now > c.expiresAt || c.sessionId == "" || found.None? || found.value !in s.rows then s
    else
      var id, row := found.value, s.rows[found.value];
      if Objection(dig, cfg, s, c, id, row, now).Some? then s.(rows := s.rows - {id})
      else s.(rows := s.rows[id := row.(token := token, refreshJti := dig(newJti), usedAt := Some(now))],
              drawn := s.drawn + {newJti}, redeemed := s.redeemed + {c}, issued := s.issued + {NewClaims(cfg, c, row, newJti, now)})
  }

  lemma ReadAlone(dig: Digest, cfg: Settings, s: State, c: Claims, now: int)
    requires s.calls == map[] && c in s.issued
    ensures var found := FindRow(s.rows, c.username, c.sessionId, s.nextId);
            var s2 := Step(dig, cfg, Step(dig, cfg, s, Present(0, c, now)), ReadRow(0));
            && SameStore(s2, s)
            && CallOf(s2, 0) == if now > c.expiresAt || c.sessionId == "" || found.None? || found.value !in s.rows then Idle
                                else Read(c, found.value, s.rows[found.value])
  {
    hide FindRow;
  }

  lemma CheckAlone(dig: Digest, cfg: Settings, s: State, c: Claims, id: nat, now: int, newJti: string)
    requires id in s.rows && CallOf(s, 0) == Read(c, id, s.rows[id]) && newJti !in s.drawn
    ensures var s3 := Step(dig, cfg, s, Check(0, now, newJti));
            var objection := Objection(dig, cfg, s, c, id, s.rows[id], now);
            if objection.Some? then SameStore(s3, s) && CallOf(s3, 0) == objection.value
            else SameStore(s3, s.(drawn := s.drawn + {newJti})) && CallOf(s3, 0) == Ready(c, id, s.rows[id], newJti, now)
  {
    hide SessionExpired;
  }

  lemma RefreshAloneOutcome(dig: Digest, cfg: Settings, s: State, c: Claims, now: int, newJti: string, token: string)
    requires s.calls == map[] && c in s.issued && newJti !in s.drawn
    ensures SameStore(RefreshOutcome(dig, cfg, s, c, now, newJti, token), RefreshAlone(dig, cfg, s, c, now, newJti, token))
  {
    hide FindRow, NewClaims, SessionExpired, PresentStep, ReadStep, CheckStep;
    var s2 := Step(dig, cfg, Step(dig, cfg, s, Present(0, c, now)), ReadRow(0));
    ReadAlone(dig, cfg, s, c, now);
    if CallOf(s2, 0).Read? {
      var id := CallOf(s2, 0).id;
      CheckAlone(dig, cfg, s2, c, id, now, newJti);
      ObjectionsAreRevocations(dig, cfg, s2, c, id, now);
      hide Objection;
    } else {
      NoCallNoCheck(dig, cfg, s2, now, newJti);
    }
  }

  lemma ObjectionsAreRevocations(dig: Digest, cfg: Settings, s: State, c: Claims, id: nat, now: int)
    requires id in s.rows
    ensures var objection := Objection(dig, cfg, s, c, id, s.rows[id], now);
            objection.Some? ==> objection.value.Revoking? && objection.value.id == id
    ensures forall s': State :: s'.accounts == s.accounts ==> Objection(dig, cfg, s', c, id, s.rows[id], now) == Objection(dig, cfg, s, c, id, s.rows[id], now)
  {
    hide SessionExpired;
  }

  lemma NoCallNoCheck(dig: Digest, cfg: Settings, s: State, now: int, newJti: string)
    requires CallOf(s, 0) == Idle
    ensures Step(dig, cfg, s, Check(0, now, newJti)) == s
  {
  }

  /** The two states hold the same rows, accounts and tokens. */
  ghost predicate SameStore(s: State, s': State) {
    s == s'.(calls := s.calls)
  }

  /** The session may be used: not idle for too long, not past its end, and the account as it was at login. */
  predicate Usable(cfg: Settings, accounts: map<string, Account>, row: Row, now: int) {
    && row.usedAt.Some? && now - row.usedAt.value <= cfg.idleTimeout
    && (row.endsAt.Some? ==> now <= row.endsAt.value)
    && row.name in accounts && accounts[row.name].pwdVer == row.pwdVer && accounts[row.name].authzVer == row.authzVer
  }

  /** The row holds the id of another token. */
  predicate HoldsOther(dig: Digest, row: Row, c: Claims) {
    row.refreshJti != "" && row.refreshJti != dig(c.jti)
  }

  /** What a refresh of session row `id` with an unexpired token returns and does, case by case. */
  predicate RefreshesRow(dig: Digest, cfg: Settings, accounts: map<string, Account>, before: map<nat, Row>,
                         after: map<nat, Row>, c: Claims, now: int, newJti: string, token: string, id: nat, r: RefreshResult)
    requires id in before
  {
    var row := before[id];
    if HoldsOther(dig, row, c) then r == Reused && after == before - {id}
    else if Usable(cfg, accounts, row, now) && c.pwdVer == row.pwdVer then
      && r.Refreshed? && after == before[id := row.(token := token, refreshJti := dig(newJti), usedAt := Some(now))]
      && RenewsUntil(cfg, c, row, newJti, now, r.claims)
    else r == Ended && after == before - {id}
  }

  /** The new token is one of the same session and lives for the refresh expiry, or until the session ends. */
  predicate RenewsUntil(cfg: Settings, c: Claims, row: Row, newJti: string, now: int, pair: Claims) {
    var end := if row.endsAt.Some? then row.endsAt.value else c.expiresAt;
    && pair.jti == newJti && pair.username == c.username && pair.sessionId == c.sessionId && pair.pwdVer == c.pwdVer
    && pair.expiresAt <= end && pair.expiresAt <= now + cfg.refreshExpiry
    && (pair.expiresAt == end || pair.expiresAt == now + cfg.refreshExpiry)
  }

  /** What a validation of row `id` does: it slides the last use of a usable session, and deletes any other. */
  predicate ValidatesRow(cfg: Settings, accounts: map<string, Account>, before: map<nat, Row>, after: map<nat, Row>,
                         now: int, id: nat, alive: bool)
    requires id in before
  {
    var row := before[id];
    if Usable(cfg, accounts, row, now) then
      && alive == row.readable
      && after == if now - row.usedAt.value > cfg.slideAfter then before[id := row.(usedAt := Some(now))] else before
    else !alive && after == before - {id}
  }

  class AuthService {
    const dig: Digest
    const cfg: Settings
    var rows: map<nat, Row>
    var nextId: nat
    var accounts: map<string, Account>
    ghost var issued: set<Claims>
    ghost var drawn: set<string>
    ghost var redeemed: set<Claims>
    ghost var ends: map<string, int>

    constructor (dig: Digest, cfg: Settings, accounts: map<string, Account>)
      ensures this.dig == dig && this.cfg == cfg && AsState() == State(map[], 0, accounts, map[], {}, {}, {}, map[])
    {
      this.dig, this.cfg, this.accounts := dig, cfg, accounts;
      rows, nextId, issued, drawn, redeemed, ends := map[], 0, {}, {}, {}, map[];
    }

    ghost function AsState(): State
      reads this
    {
      State(rows, nextId, accounts, map[], issued, drawn, redeemed, ends)
    }

    /** First row of a session, in id order. */
    method FindSession(name: string, sessionId: string) returns (id: Option<nat>)
      ensures id == FindRow(rows, name, sessionId, nextId)
    {
      id := None;
      for i := 0 to nextId
        invariant id == FindRow(rows, name, sessionId, i)
      {
        if id.None? && IsRowOf(rows, name, sessionId, i) {
          id := Some(i);
        }
      }
    }

    method FindByToken(token: string) returns (id: Option<nat>)
      ensures id == FindToken(rows, token, nextId)
    {
      id := None;
      for i := 0 to nextId
        invariant id == FindToken(rows, token, i)
      {
        if id.None? && i in rows && rows[i].token == token {
          id := Some(i);
        }
      }
    }

    /** RefreshToken for claims with a valid signature; `newJti` and `token` are what the random generator yields. */
    method RefreshToken(c: Claims, now: int, newJti: string, token: string) returns (r: RefreshResult)
      requires Sessions.Inv(dig, AsState()) && c in issued && newJti !in drawn && GoodDigest(dig)
      modifies this
      ensures SameStore(AsState(), RefreshAlone(dig, cfg, old(AsState()), c, now, newJti, token))
      ensures Sessions.Inv(dig, AsState())
      ensures r == InvalidToken <==> now > c.expiresAt
      ensures r == NotFound
         <==> now <= c.expiresAt && (c.sessionId == "" || forall id :: !IsRowOf(old(rows), c.username, c.sessionId, id))
      ensures r == InvalidToken || r == NotFound ==> rows == old(rows)
      ensures forall id :: now <= c.expiresAt && c.sessionId != "" && IsRowOf(old(rows), c.username, c.sessionId, id) ==>
                RefreshesRow(dig, cfg, accounts, old(rows), rows, c, now, newJti, token, id, r)
      ensures r.Refreshed? ==> c !in old(redeemed) && c in redeemed && r.claims in issued && r.claims.jti == newJti
      ensures r.Refreshed? && c.sessionId in old(ends) ==> r.claims.expiresAt <= old(ends)[c.sessionId]
      ensures c in old(redeemed) ==> !r.Refreshed?
      ensures c in old(redeemed) && now <= c.expiresAt && c.sessionId != "" ==> forall id :: id in rows ==> !IsRowOf(rows, c.username, c.sessionId, id)
    {
      hide Sessions.Inv, GoodDigest, FindRow, SessionExpired, RefreshAlone, Usable, RenewsUntil, IsRowOf;
      ghost var s := AsState();
      RefreshAloneOutcome(dig, cfg, s, c, now, newJti, token);
      RefreshKeepsInv(dig, cfg, s, c, now, newJti, token);
      RefreshFacts(dig, s, c);
      if c.sessionId != "" {
        OneRow(dig, s, c);
      }
      if now > c.expiresAt {
        return InvalidToken;
      }
      if c.sessionId == "" {
        return NotFound;
      }
      var found := FindSession(c.username, c.sessionId);
      if found.None? || found.value !in rows {
        return NotFound;
      }
      var id, row := found.value, rows[found.value];
      AliveMeaning(cfg, accounts, row, now);
      if row.refreshJti != "" && row.refreshJti != dig(c.jti) {
        RowsWithout(rows, id, c);
        rows := rows - {id};
        return Reused;
      }
      if SessionExpired(cfg, row, now) {
        RowsWithout(rows, id, c);
        rows := rows - {id};
        return Ended;
      }
      if row.name !in accounts || accounts[row.name].pwdVer != row.pwdVer || accounts[row.name].pwdVer != c.pwdVer
         || accounts[row.name].authzVer != row.authzVer {
        RowsWithout(rows, id, c);
        rows := rows - {id};
        return Ended;
      }
      var pair := NewClaims(cfg, c, row, newJti, now);
      NewPair(cfg, c, row, newJti, now);
      hide NewClaims;
      drawn := drawn + {newJti};
      // The compare-and-swap: run alone, it finds the row as it was read.
      rows := rows[id := row.(token := token, refreshJti := dig(newJti), usedAt := Some(now))];
      redeemed, issued := redeemed + {c}, issued + {pair};
      r := Refreshed(pair);
    }

    /** ValidateSession: true when the access token's session is alive and its data can be read. */
    method ValidateSession(token: string, now: int) returns (alive: bool)
      modifies this`rows
      ensures SameStore(AsState(), ValidateAlone(dig, cfg, old(AsState()), token, now))
      ensures token == "" || (forall id: nat :: id < nextId && id in old(rows) ==> old(rows)[id].token != token)
          ==> !alive && rows == old(rows)
      ensures forall id: nat :: id < nextId && FirstWithToken(old(rows), token, id) && token != "" ==>
                ValidatesRow(cfg, accounts, old(rows), rows, now, id, alive)
      ensures alive ==> exists id :: id in rows && rows[id].token == token
    {
      hide FindToken, SessionExpired, ValidateAlone, SessionAlive;
      FindTokenMeaning(rows, token, nextId);
      ValidateAloneOutcome(dig, cfg, AsState(), token, now);
      if token == "" {
        return false;
      }
      var found := FindByToken(token);
      if found.None? || found.value !in rows {
        return false;
      }
      var id, row := found.value, rows[found.value];
      AliveMeaning(cfg, accounts, row, now);
      if SessionExpired(cfg, row, now) {
        rows := rows - {id};
        return false;
      }
      if row.name !in accounts || accounts[row.name] != Account(row.pwdVer, row.authzVer) {
        rows := rows - {id};
        return false;
      }
      if now - row.usedAt.value > cfg.slideAfter {
        rows := rows[id := row.(usedAt := Some(now))];
      }
      assert id in rows && rows[id].token == token;
      alive := row.readable;
    }

    method ClearUserSessions(name: string)
      modifies this`rows
      ensures SameStore(AsState(), Step(dig, cfg, old(AsState()), ClearSessions(name)))
      ensures forall id :: id in rows ==> id in old(rows) && rows[id].name != name
      ensures forall id :: id in old(rows) && old(rows)[id].name != name ==> id in rows && rows[id] == old(rows)[id]
    {
      rows := map id | id in rows && rows[id].name != name :: rows[id];
    }

    method EndSession(name: string, token: string)
      modifies this`rows
      ensures SameStore(AsState(), Step(dig, cfg, old(AsState()), Logout(name, token)))
      ensures forall id :: id in rows ==> id in old(rows) && !(rows[id].name == name && rows[id].token == token)
      ensures forall id :: id in old(rows) && !(old(rows)[id].name == name && old(rows)[id].token == token)
                ==> id in rows && rows[id] == old(rows)[id]
    {
      rows := map id | id in rows && !(rows[id].name == name && rows[id].token == token) :: rows[id];
    }
  }

  /** Neither idle for too long nor past its end, and nothing changed about the account since login. */
  predicate SessionAlive(cfg: Settings, accounts: map<string, Account>, row: Row, now: int) {
    && !SessionExpired(cfg, row, now)
    && row.name in accounts && accounts[row.name] == Account(row.pwdVer, row.authzVer)
  }

  lemma AliveMeaning(cfg: Settings, accounts: map<string, Account>, row: Row, now: int)
    ensures SessionAlive(cfg, accounts, row, now)
       <==> && !SessionExpired(cfg, row, now)
            && row.name in accounts && accounts[row.name] == Account(row.pwdVer, row.authzVer)
    ensures !SessionExpired(cfg, row, now) ==> row.usedAt.Some?
    ensures SessionAlive(cfg, accounts, row, now) <==> Usable(cfg, accounts, row, now)
  {
  }

  lemma NewPair(cfg: Settings, c: Claims, row: Row, newJti: string, now: int)
    ensures RenewsUntil(cfg, c, row, newJti, now, NewClaims(cfg, c, row, newJti, now))
    ensures NewClaims(cfg, c, row, newJti, now).jti == newJti
    ensures NewClaims(cfg, c, row, newJti, now).expiresAt <= SessionEnd(c, row)
  {
  }

  lemma RowsWithout(rows: map<nat, Row>, id: nat, c: Claims)
    ensures forall j :: IsRowOf(rows - {id}, c.username, c.sessionId, j) ==> j != id && IsRowOf(rows, c.username, c.sessionId, j)
  {
  }

  /** The search finds the one row of the session. */
  lemma OneRow(dig: Digest, s: State, c: Claims)
    requires Sessions.Inv(dig, s) && c in s.issued && c.sessionId != ""
    ensures match FindRow(s.rows, c.username, c.sessionId, s.nextId)
            case None => forall id :: !IsRowOf(s.rows, c.username, c.sessionId, id)
            case Some(k) => k in s.rows && IsRowOf(s.rows, c.username, c.sessionId, k)
                            && forall id :: IsRowOf(s.rows, c.username, c.sessionId, id) ==> id == k
  {
    hide FindRow;
    FindRowMeaning(s.rows, c.username, c.sessionId, s.nextId);
    forall id | id in s.rows ensures id < s.nextId {
      assert RowOk(dig, s, id, s.rows[id]);
    }
  }

  /** What an uninterrupted validation does to the rows: it deletes a dead session and slides a live one. */
  function ValidatedRows(cfg: Settings, s: State, token: string, now: int): map<nat, Row> {
    var found := FindToken(s.rows, token, s.nextId);
    if token == "" || found.None? || found.value !in s.rows then s.rows
    else CheckedRows(cfg, s, found.value, now)
  }

  function CheckedRows(cfg: Settings, s: State, id: nat, now: int): map<nat, Row>
    requires id in s.rows
  {
    var row := s.rows[id];
    if !SessionAlive(cfg, s.accounts, row, now) then s.rows - {id}
    else
      AliveMeaning(cfg, s.accounts, row, now);
      if now - row.usedAt.value > cfg.slideAfter then s.rows[id := row.(usedAt := Some(now))] else s.rows
  }

  lemma ValidateAloneOutcome(dig: Digest, cfg: Settings, s: State, token: string, now: int)
    requires s.calls == map[]
    ensures SameStore(s.(rows := ValidatedRows(cfg, s, token, now)), ValidateAlone(dig, cfg, s, token, now))
  {
    hide FindToken, SessionExpired, SessionAlive, Objection, NewClaims, ValidateStep, RevokeStep;
    var found := FindToken(s.rows, token, s.nextId);
    var s1 := Step(dig, cfg, s, Validate(0, token));
    FoundAlone(cfg, s, token);
    if CallOf(s1, 0).Validating? {
      CheckedAlone(cfg, s1, found.value, now);
    } else {
      NothingToDo(cfg, s, now);
    }
  }

  lemma FoundAlone(cfg: Settings, s: State, token: string)
    requires s.calls == map[]
    ensures var found := FindToken(s.rows, token, s.nextId);
            ValidateStep(cfg, s, Validate(0, token))
            == if token != "" && found.Some? && found.value in s.rows
               then s.(calls := map[0 := Validating(found.value, s.rows[found.value])]) else s
  {
    hide FindToken;
  }

  lemma NothingToDo(cfg: Settings, s: State, now: int)
    requires s.calls == map[]
    ensures ValidateStep(cfg, s, ValidateCheck(0, now)) == s == ValidateStep(cfg, s, Slide(0)) == RevokeStep(s, Revoke(0))
  {
  }

  /** From the check on: a dead session is deleted, a live one slides when it is time to. */
  lemma CheckedAlone(cfg: Settings, s: State, id: nat, now: int)
    requires id in s.rows && CallOf(s, 0) == Validating(id, s.rows[id])
    ensures var s' := RevokeStep(ValidateStep(cfg, ValidateStep(cfg, s, ValidateCheck(0, now)), Slide(0)), Revoke(0));
            && SameStore(s', s.(rows := s'.rows))
            && s'.rows == CheckedRows(cfg, s, id, now)
  {
    hide SessionExpired, SessionAlive;
    AliveMeaning(cfg, s.accounts, s.rows[id], now);
  }

  /** The first row, in id order, with this access token. */
  predicate FirstWithToken(rows: map<nat, Row>, token: string, id: nat) {
    id in rows && rows[id].token == token && forall j: nat :: j < id && j in rows ==> rows[j].token != token
  }

  lemma {:induction false} FindTokenMeaning(rows: map<nat, Row>, token: string, below: nat)
    ensures match FindToken(rows, token, below)
            case None => forall id: nat :: id < below && id in rows ==> rows[id].token != token
            case Some(id) => id < below && FirstWithToken(rows, token, id)
  {
    if below > 0 {
      FindTokenMeaning(rows, token, below - 1);
    }
  }

  /** Forgetting finished calls keeps the invariant. */
  lemma ForgetCalls(dig: Digest, s: State)
    requires Sessions.Inv(dig, s)
    ensures Sessions.Inv(dig, s.(calls := map[]))
  {
    var s' := s.(calls := map[]);
    forall c | c in s'.issued ensures ClaimsOk(s', c) { assert ClaimsOk(s, c); }
    SameRows(dig, s, s');
  }

  lemma RefreshKeepsInv(dig: Digest, cfg: Settings, s: State, c: Claims, now: int, newJti: string, token: string)
    requires GoodDigest(dig) && Sessions.Inv(dig, s)
    ensures Sessions.Inv(dig, RefreshAlone(dig, cfg, s, c, now, newJti, token).(calls := map[]))
  {
    hide Sessions.Inv, GoodDigest, Step;
    var s1 := Step(dig, cfg, s, Present(0, c, now));
    var s2 := Step(dig, cfg, s1, ReadRow(0));
    var s3 := Step(dig, cfg, s2, Check(0, now, newJti));
    var s4 := Step(dig, cfg, s3, Swap(0, token));
    Sessions.StepInv(dig, cfg, s, Present(0, c, now));
    Sessions.StepInv(dig, cfg, s1, ReadRow(0));
    Sessions.StepInv(dig, cfg, s2, Check(0, now, newJti));
    Sessions.StepInv(dig, cfg, s3, Swap(0, token));
    Sessions.StepInv(dig, cfg, s4, Revoke(0));
    ForgetCalls(dig, RefreshAlone(dig, cfg, s, c, now, newJti, token));
  }

  /** What the store says of a token before it is presented. */
  lemma RefreshFacts(dig: Digest, s: State, c: Claims)
    requires Sessions.Inv(dig, s) && c in s.issued
    ensures forall id :: id in s.rows && c in s.redeemed && IsRowOf(s.rows, c.username, c.sessionId, id) ==>
              s.rows[id].refreshJti != "" && s.rows[id].refreshJti != dig(c.jti)
    ensures forall i, j :: i in s.rows && s.rows[i].sessionId != "" && IsRowOf(s.rows, s.rows[i].name, s.rows[i].sessionId, j)
              ==> i == j
    ensures forall id :: id in s.rows && c.sessionId != "" && IsRowOf(s.rows, c.username, c.sessionId, id) ==>
              id < s.nextId && c.sessionId in s.ends && c.expiresAt <= s.ends[c.sessionId]
              && (s.rows[id].endsAt.Some? ==> s.rows[id].endsAt.value == s.ends[c.sessionId])
  {
    forall id | id in s.rows ensures RowOk(dig, s, id, s.rows[id]) {
    }
    assert ClaimsOk(s, c);
  }

  /**
   A login opens a session: its refresh token and its access token are accepted up to the idle timeout, the absolute
   end of the session (the login plus the refresh expiry) and the next change of the account, and no longer.
   */
  lemma LoginOpensSession(dig: Digest, cfg: Settings, s: State, a: Action, now: int)
    requires GoodDigest(dig) && Sessions.Inv(dig, s) && LogsIn(s, a)
    requires forall id :: id in s.rows ==> s.rows[id].token != a.token
    ensures var s', account := LoginStep(dig, cfg, s, a), s.accounts[a.name];
            var c := Claims(a.jti, a.name, a.sessionId, account.pwdVer, a.now + cfg.refreshExpiry);
            && c in s'.issued && c !in s.issued && s.nextId in s'.rows && s'.rows - {s.nextId} == s.rows
            && FirstWithToken(s'.rows, a.token, s.nextId) && IsRowOf(s'.rows, c.username, c.sessionId, s.nextId)
            && var row := s'.rows[s.nextId];
               && row.readable && !HoldsOther(dig, row, c) && c.pwdVer == row.pwdVer
               && (Usable(cfg, s'.accounts, row, now) <==> now - a.now <= cfg.idleTimeout && now <= a.now + cfg.refreshExpiry)
               && (forall accounts: map<string, Account> :: Usable(cfg, accounts, row, now) ==>
                     a.name in accounts && accounts[a.name] == account)
  {
    hide GoodDigest;
    forall id | id in s.rows ensures id < s.nextId {
      assert RowOk(dig, s, id, s.rows[id]);
    }
    assert forall c :: c in s.issued ==> ClaimsOk(s, c);
  }
}
