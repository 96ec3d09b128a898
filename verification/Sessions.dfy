/**
 Session rows under concurrent refreshes, logins, logouts and validations (internal/service/auth_session.go). Every
 database statement of a call is one step; calls interleave freely between their steps.
 */
module Sessions {
  import opened Options

  /** The digest under which a refresh token's id is stored. */
  type Digest = string -> string

  ghost predicate GoodDigest(dig: Digest) {
    && (forall x, y :: dig(x) == dig(y) ==> x == y)
    && (forall x :: dig(x) != "")
  }

  /** What a refresh token says. */
  datatype Claims = Claims(jti: string, username: string, sessionId: string, pwdVer: int, expiresAt: int)

  /**
   A row of user_tokens. Rows of older versions have an empty refreshJti or no endsAt; `readable` says whether the
   stored session data is there and can be decoded.
   */
  datatype Row = Row(name: string, sessionId: string, token: string, refreshJti: string, pwdVer: int, authzVer: int,
                     usedAt: Option<int>, endsAt: Option<int>, readable: bool)

  datatype Account = Account(pwdVer: int, authzVer: int)

  datatype Settings = Settings(idleTimeout: int, refreshExpiry: int, slideAfter: int)

  /** Where a call stands: after reading its row, with its new token drawn, about to delete a row, about to slide one. */
  datatype Call =
    | Idle
    | Presented(claims: Claims)
    | Read(claims: Claims, id: nat, row: Row)
    | Ready(claims: Claims, id: nat, row: Row, newJti: string, now: int)
    | Revoking(id: nat, reuse: bool)
    | Validating(id: nat, row: Row)
    | Sliding(id: nat, now: int)

  /** `issued`, `drawn`, `redeemed` and `ends` are auxiliary: tokens issued, ids drawn, tokens redeemed, session ends. */
  datatype State = State(
    rows: map<nat, Row>, nextId: nat, accounts: map<string, Account>, calls: map<nat, Call>,
    issued: set<Claims>, drawn: set<string>, redeemed: set<Claims>, ends: map<string, int>)

  datatype Action =
    | Login(name: string, sessionId: string, jti: string, token: string, now: int)
    | Present(w: nat, claims: Claims, now: int)
    | ReadRow(w: nat)
    | Check(w: nat, now: int, newJti: string)
    | Swap(w: nat, token: string)
    | Revoke(w: nat)
    | Validate(w: nat, token: string)
    | ValidateCheck(w: nat, now: int)
    | Slide(w: nat)
    | Logout(name: string, token: string)
    | ClearSessions(name: string)
    | ChangeAccount(name: string, account: Account)

  function CallOf(s: State, w: nat): Call {
    if w in s.calls then s.calls[w] else Idle
  }

  predicate SessionExpired(cfg: Settings, row: Row, now: int) {
    || row.usedAt.None? || now - row.usedAt.value > cfg.idleTimeout
    || (row.endsAt.Some? && now > row.endsAt.value)
  }

  /** The row of a session; ids grow, so the first one is the smallest. */
  predicate IsRowOf(rows: map<nat, Row>, name: string, sessionId: string, id: nat) {
    id in rows && rows[id].name == name && rows[id].sessionId == sessionId
  }

  function FindRow(rows: map<nat, Row>, name: string, sessionId: string, below: nat): Option<nat> {
    if below == 0 then None
    else
      var before := FindRow(rows, name, sessionId, below - 1);
      if before.Some? then before
      else if IsRowOf(rows, name, sessionId, below - 1) then Some(below - 1) else None
  }

  function FindToken(rows: map<nat, Row>, token: string, below: nat): Option<nat> {
    if below == 0 then None
    else
      var before := FindToken(rows, token, below - 1);
      if before.Some? then before
      else if below - 1 in rows && rows[below - 1].token == token then Some(below - 1) else None
  }

  // ---------- steps ----------

  function LoginStep(dig: Digest, cfg: Settings, s: State, a: Action): State
    requires a.Login?
  {
    if a.name !in s.accounts || a.sessionId == "" || a.sessionId in s.ends || a.jti in s.drawn then s
    else
      var account, end := s.accounts[a.name], a.now + cfg.refreshExpiry;
      var row := Row(a.name, a.sessionId, a.token, dig(a.jti), account.pwdVer, account.authzVer, Some(a.now), Some(end),
                     true);
      s.(rows := s.rows[s.nextId := row], nextId := s.nextId + 1, drawn := s.drawn + {a.jti}, ends := s.ends[a.sessionId := end],
         issued := s.issued + {Claims(a.jti, a.name, a.sessionId, account.pwdVer, end)})
  }

  /** Only tokens that were issued and have not expired get past the signature check. */
  function PresentStep(s: State, a: Action): State
    requires a.Present?
  {
    if CallOf(s, a.w) != Idle || a.claims !in s.issued || a.now > a.claims.expiresAt || a.claims.sessionId == "" then s
    else s.(calls := s.calls[a.w := Presented(a.claims)])
  }

  function ReadStep(s: State, a: Action): State
    requires a.ReadRow?
  {
    match CallOf(s, a.w)
    case Presented(c) =>
      var id := FindRow(s.rows, c.username, c.sessionId, s.nextId);
      s.(calls := s.calls[a.w := if id.Some? && id.value in s.rows then Read(c, id.value, s.rows[id.value]) else Idle])
    case _ => s
  }

  /** What the row and the account say against a refresh; None lets it go on. */
  function Objection(dig: Digest, cfg: Settings, s: State, c: Claims, id: nat, row: Row, now: int): Option<Call> {
    if row.refreshJti != "" && row.refreshJti != dig(c.jti) then Some(Revoking(id, true))
    else if SessionExpired(cfg, row, now) then Some(Revoking(id, false))
    else if row.name !in s.accounts || s.accounts[row.name].pwdVer != row.pwdVer || s.accounts[row.name].pwdVer != c.pwdVer
            || s.accounts[row.name].authzVer != row.authzVer then Some(Revoking(id, false))
    else None
  }

  function CheckStep(dig: Digest, cfg: Settings, s: State, a: Action): State
    requires a.Check?
  {
    match CallOf(s, a.w)
    case Read(c, id, row) =>
      var objection := Objection(dig, cfg, s, c, id, row, a.now);
      if objection.Some? then s.(calls := s.calls[a.w := objection.value])
      else if a.newJti in s.drawn then s
      else s.(calls := s.calls[a.w := Ready(c, id, row, a.newJti, a.now)], drawn := s.drawn + {a.newJti})
    case _ => s
  }

  /** The end of the session that a refresh belongs to. */
  function SessionEnd(c: Claims, row: Row): int {
    if row.endsAt.Some? then row.endsAt.value else c.expiresAt
  }

  /** The new token lives for the refresh expiry, but never beyond the session. */
  function NewClaims(cfg: Settings, c: Claims, row: Row, newJti: string, now: int): Claims {
    var end, full := SessionEnd(c, row), now + cfg.refreshExpiry;
    Claims(newJti, c.username, c.sessionId, c.pwdVer, if end < full then end else full)
  }

  /** The compare-and-swap on the stored token id finds what the call read. */
  predicate SwapSucceeds(s: State, id: nat, row: Row) {
    id in s.rows && s.rows[id].refreshJti == row.refreshJti
  }

  function SwapStep(dig: Digest, cfg: Settings, s: State, a: Action): State
    requires a.Swap?
  {
    match CallOf(s, a.w)
    case Ready(c, id, row, newJti, now) =>
      if !SwapSucceeds(s, id, row) then s.(calls := s.calls[a.w := Revoking(id, true)])
      else
        var row' := s.rows[id].(token := a.token, refreshJti := dig(newJti), usedAt := Some(now));
        s.(rows := s.rows[id := row'], calls := s.calls[a.w := Idle], redeemed := s.redeemed + {c},
           issued := s.issued + {NewClaims(cfg, c, row, newJti, now)})
    case _ => s
  }

  function RevokeStep(s: State, a: Action): State
    requires a.Revoke?
  {
    match CallOf(s, a.w)
    case Revoking(id, _) => s.(rows := s.rows - {id}, calls := s.calls[a.w := Idle])
    case _ => s
  }

  function ValidateStep(cfg: Settings, s: State, a: Action): State
    requires a.Validate? || a.ValidateCheck? || a.Slide?
  {
    match (a, CallOf(s, a.w))
    case (Validate(_, token), Idle) =>
      var id := FindToken(s.rows, token, s.nextId);
      if token != "" && id.Some? && id.value in s.rows then s.(calls := s.calls[a.w := Validating(id.value, s.rows[id.value])]) else s
    case (ValidateCheck(_, now), Validating(id, row)) =>
      if SessionExpired(cfg, row, now) || row.name !in s.accounts || s.accounts[row.name] != Account(row.pwdVer, row.authzVer) then
        s.(calls := s.calls[a.w := Revoking(id, false)])
      else if now - row.usedAt.value > cfg.slideAfter then s.(calls := s.calls[a.w := Sliding(id, now)])
      else s.(calls := s.calls[a.w := Idle])
    case (Slide(_), Sliding(id, now)) =>
      s.(rows := if id in s.rows then s.rows[id := s.rows[id].(usedAt := Some(now))] else s.rows, calls := s.calls[a.w := Idle])
    case _ => s
  }

  function DeleteStep(s: State, a: Action): State {
    match a
    case Logout(name, token) => s.(rows := map id | id in s.rows && !(s.rows[id].name == name && s.rows[id].token == token) :: s.rows[id])
    case ClearSessions(name) => s.(rows := map id | id in s.rows && s.rows[id].name != name :: s.rows[id])
    case ChangeAccount(name, account) => s.(accounts := s.accounts[name := account])
    case _ => s
  }

  function Step(dig: Digest, cfg: Settings, s: State, a: Action): State {
    match a
    case Login(_, _, _, _, _) => LoginStep(dig, cfg, s, a)
    case Present(_, _, _) => PresentStep(s, a)
    case ReadRow(_) => ReadStep(s, a)
    case Check(_, _, _) => CheckStep(dig, cfg, s, a)
    case Swap(_, _) => SwapStep(dig, cfg, s, a)
    case Revoke(_) => RevokeStep(s, a)
    case Validate(_, _) => ValidateStep(cfg, s, a)
    case ValidateCheck(_, _) => ValidateStep(cfg, s, a)
    case Slide(_) => ValidateStep(cfg, s, a)
    case _ => DeleteStep(s, a)
  }

  function Run(dig: Digest, cfg: Settings, s: State, actions: seq<Action>): State {
    if actions == [] then s
    else Step(dig, cfg, Run(dig, cfg, s, actions[..|actions| - 1]), actions[|actions| - 1])
  }

  // ---------- the invariant ----------

  /** The row stores the id of this token, which is one of its session. */
  predicate Owns(dig: Digest, row: Row, x: Claims) {
    dig(x.jti) == row.refreshJti && x.username == row.name && x.sessionId == row.sessionId
  }

  /** A row can only be refreshed by a token that was not redeemed yet. */
  ghost predicate RowOk(dig: Digest, s: State, id: nat, row: Row) {
    && id < s.nextId
    && (row.sessionId != "" ==>
          row.sessionId in s.ends && (row.endsAt.Some? ==> row.endsAt.value == s.ends[row.sessionId]))
    && (row.refreshJti == "" || exists x :: x in s.issued && Owns(dig, row, x))
    && (forall c :: c in s.redeemed ==> row.refreshJti != dig(c.jti))
    && (row.refreshJti == "" ==> forall c :: c in s.redeemed ==> !(c.username == row.name && c.sessionId == row.sessionId))
  }

  ghost predicate RowsOk(dig: Digest, s: State) {
    && (forall id :: id in s.rows ==> RowOk(dig, s, id, s.rows[id]))
    && (forall i, j :: i in s.rows && s.rows[i].sessionId != "" && IsRowOf(s.rows, s.rows[i].name, s.rows[i].sessionId, j)
          ==> i == j)
  }

  predicate ClaimsOk(s: State, c: Claims) {
    c.jti in s.drawn && c.sessionId in s.ends && c.expiresAt <= s.ends[c.sessionId]
  }

  ghost predicate TokensOk(s: State) {
    && (forall c :: c in s.issued ==> ClaimsOk(s, c)) && s.redeemed <= s.issued
    && (forall c, x :: c in s.issued && x in s.issued && c.jti == x.jti ==> c == x)
  }

  /** What a call has read of its row is still what the row says, apart from token, token id and last use. */
  predicate SnapshotOk(s: State, c: Claims, id: nat, row: Row) {
    && c in s.issued && id < s.nextId && c.sessionId != "" && c.sessionId in s.ends
    && row.name == c.username && row.sessionId == c.sessionId
    && (row.endsAt.Some? ==> row.endsAt.value == s.ends[c.sessionId])
    && (id in s.rows ==> IsRowOf(s.rows, row.name, row.sessionId, id) && s.rows[id].endsAt == row.endsAt)
    && (forall j :: j in s.rows && IsRowOf(s.rows, row.name, row.sessionId, j) ==> j == id)
  }

  /** The row carries the end of its session. */
  predicate EndKnown(s: State, row: Row) {
    row.sessionId != "" && row.endsAt.Some? ==> row.sessionId in s.ends && row.endsAt.value == s.ends[row.sessionId]
  }

  ghost predicate CallOk(dig: Digest, s: State, call: Call)
    requires TokensOk(s)
  {
    match call
    case Presented(c) => c in s.issued && c.sessionId != ""
    case Read(c, id, row) => c in s.issued && SnapshotOk(s, c, id, row)
    case Ready(c, id, row, newJti, _) =>
      && c in s.issued && SnapshotOk(s, c, id, row) && (row.refreshJti == "" || row.refreshJti == dig(c.jti))
      && newJti in s.drawn && forall x :: x in s.issued ==> x.jti != newJti
    case Revoking(id, _) => id < s.nextId
    case Validating(id, row) => id < s.nextId && EndKnown(s, row)
    case _ => true
  }

  ghost predicate CallsOk(dig: Digest, s: State)
    requires TokensOk(s)
  {
    && (forall w :: w in s.calls ==> CallOk(dig, s, s.calls[w]))
    && (forall v, w :: v in s.calls && w in s.calls && v != w && s.calls[v].Ready? && s.calls[w].Ready? ==>
          s.calls[v].newJti != s.calls[w].newJti)
  }

  ghost predicate Inv(dig: Digest, s: State) {
    TokensOk(s) && RowsOk(dig, s) && CallsOk(dig, s)
  }

  // ---------- steps that only concern one call ----------

  /** Nothing but the call `w` changes. */
  predicate OnlyCall(s: State, s': State, w: nat) {
    s' == s.(calls := s'.calls) && w in s'.calls && s'.calls == s.calls[w := s'.calls[w]]
  }

  lemma OneCall(dig: Digest, s: State, s': State, w: nat)
    requires Inv(dig, s) && OnlyCall(s, s', w) && CallOk(dig, s, s'.calls[w]) && !s'.calls[w].Ready?
    ensures Inv(dig, s')
  {
    hide SnapshotOk, RowOk;
    assert RowsOk(dig, s') by { SameRows(dig, s, s'); }
    forall c | c in s'.issued ensures ClaimsOk(s', c) {
      assert ClaimsOk(s, c);
    }
    forall v | v in s'.calls ensures CallOk(dig, s', s'.calls[v]) {
      if v != w {
        assert CallOk(dig, s, s.calls[v]);
      }
      SameSnapshot(s, s');
    }
  }

  lemma SameSnapshot(s: State, s': State)
    requires s'.rows == s.rows && s'.nextId == s.nextId && s'.issued == s.issued && s'.ends == s.ends
    ensures forall c, id, row :: SnapshotOk(s', c, id, row) <==> SnapshotOk(s, c, id, row)
  {
  }

  lemma {:induction false} FindRowMeaning(rows: map<nat, Row>, name: string, sessionId: string, below: nat)
    ensures match FindRow(rows, name, sessionId, below)
            case None => forall id: nat :: id < below ==> !IsRowOf(rows, name, sessionId, id)
            case Some(id) => id < below && IsRowOf(rows, name, sessionId, id)
                             && forall j: nat :: j < id ==> !IsRowOf(rows, name, sessionId, j)
  {
    if below > 0 {
      FindRowMeaning(rows, name, sessionId, below - 1);
    }
  }

  lemma ReadStepInv(dig: Digest, s: State, a: Action)
    requires Inv(dig, s) && a.ReadRow?
    ensures Inv(dig, ReadStep(s, a))
  {
    hide FindRow;
    var call := CallOf(s, a.w);
    if call.Presented? {
      var c := call.claims;
      FindRowMeaning(s.rows, c.username, c.sessionId, s.nextId);
      var id := FindRow(s.rows, c.username, c.sessionId, s.nextId);
      if id.Some? {
        assert RowOk(dig, s, id.value, s.rows[id.value]);
        assert ClaimsOk(s, c);
      }
      OneCall(dig, s, ReadStep(s, a), a.w);
    }
  }

  lemma PresentStepInv(dig: Digest, s: State, a: Action)
    requires Inv(dig, s) && a.Present?
    ensures Inv(dig, PresentStep(s, a))
  {
    if PresentStep(s, a) != s {
      OneCall(dig, s, PresentStep(s, a), a.w);
    }
  }

  lemma CheckStepInv(dig: Digest, cfg: Settings, s: State, a: Action)
    requires Inv(dig, s) && a.Check?
    ensures Inv(dig, CheckStep(dig, cfg, s, a))
  {
    hide SnapshotOk, RowOk, SessionExpired;
    var call, s' := CallOf(s, a.w), CheckStep(dig, cfg, s, a);
    if call.Read? && s' != s {
      assert CallOk(dig, s, call);
      assert call.id < s.nextId by { SnapshotId(s, call.claims, call.id, call.row); }
      if Objection(dig, cfg, s, call.claims, call.id, call.row, a.now).Some? {
        OneCall(dig, s, s', a.w);
      } else {
        DrawnJti(dig, s, s', a.w, call, a.newJti, a.now);
      }
    }
  }

  lemma SnapshotId(s: State, c: Claims, id: nat, row: Row)
    requires SnapshotOk(s, c, id, row)
    ensures id < s.nextId
  {
  }

  /** A new token id has been drawn for one call. */
  lemma DrawnJti(dig: Digest, s: State, s': State, w: nat, call: Call, newJti: string, now: int)
    requires Inv(dig, s) && call.Read? && CallOk(dig, s, call) && newJti !in s.drawn
    requires call.row.refreshJti == "" || call.row.refreshJti == dig(call.claims.jti)
    requires s' == s.(calls := s.calls[w := Ready(call.claims, call.id, call.row, newJti, now)], drawn := s.drawn + {newJti})
    ensures Inv(dig, s')
  {
    hide RowOk, SnapshotOk;
    forall c | c in s'.issued ensures ClaimsOk(s', c) && c.jti != newJti {
      assert ClaimsOk(s, c);
    }
    SameSnapshot(s, s');
    assert RowsOk(dig, s') by { SameRows(dig, s, s'); }
    forall v | v in s'.calls ensures CallOk(dig, s', s'.calls[v]) {
      if v != w {
        assert CallOk(dig, s, s.calls[v]);
      }
    }
    forall v | v in s.calls && v != w && s.calls[v].Ready? ensures s.calls[v].newJti != newJti {
      assert CallOk(dig, s, s.calls[v]);
    }
  }

  lemma SameRows(dig: Digest, s: State, s': State)
    requires RowsOk(dig, s) && s'.rows == s.rows && s'.nextId == s.nextId && s'.redeemed == s.redeemed && s'.ends == s.ends
    requires s'.issued == s.issued
    ensures RowsOk(dig, s')
  {
    forall id | id in s'.rows ensures RowOk(dig, s', id, s'.rows[id]) {
      assert RowOk(dig, s, id, s.rows[id]);
    }
  }

  // ---------- steps that delete or slide rows ----------

  /** Rows only disappear or change their last use. */
  ghost predicate RowsShrink(s: State, s': State) {
    && s' == s.(rows := s'.rows, calls := s'.calls, accounts := s'.accounts)
    && forall id :: id in s'.rows ==> id in s.rows && s'.rows[id] == s.rows[id].(usedAt := s'.rows[id].usedAt)
  }

  lemma ShrunkInv(dig: Digest, s: State, s': State)
    requires Inv(dig, s) && RowsShrink(s, s')
    requires forall w :: w in s'.calls ==> s'.calls[w] == Idle || (w in s.calls && s'.calls[w] == s.calls[w])
    ensures Inv(dig, s')
  {
    forall id | id in s'.rows ensures RowOk(dig, s', id, s'.rows[id]) {
      assert RowOk(dig, s, id, s.rows[id]);
    }
    forall c | c in s'.issued ensures ClaimsOk(s', c) {
      assert ClaimsOk(s, c);
    }
    forall i, j | i in s'.rows && s'.rows[i].sessionId != "" && IsRowOf(s'.rows, s'.rows[i].name, s'.rows[i].sessionId, j)
      ensures i == j
    {
      assert IsRowOf(s.rows, s.rows[i].name, s.rows[i].sessionId, j);
    }
    forall w | w in s'.calls ensures CallOk(dig, s', s'.calls[w]) {
      if s'.calls[w] != Idle {
        ShrunkCall(dig, s, s', s.calls[w]);
      }
    }
  }

  lemma ShrunkCall(dig: Digest, s: State, s': State, call: Call)
    requires TokensOk(s) && TokensOk(s') && RowsShrink(s, s') && CallOk(dig, s, call)
    ensures CallOk(dig, s', call)
  {
  }

  lemma RevokeStepInv(dig: Digest, s: State, a: Action)
    requires Inv(dig, s) && a.Revoke?
    ensures Inv(dig, RevokeStep(s, a))
  {
    hide Inv;
    if CallOf(s, a.w).Revoking? {
      ShrunkInv(dig, s, RevokeStep(s, a));
    }
  }

  lemma DeleteStepInv(dig: Digest, s: State, a: Action)
    requires Inv(dig, s)
    ensures Inv(dig, DeleteStep(s, a))
  {
    hide Inv;
    ShrunkInv(dig, s, DeleteStep(s, a));
  }

  lemma {:induction false} FindTokenBound(rows: map<nat, Row>, token: string, below: nat)
    ensures FindToken(rows, token, below).Some? ==> FindToken(rows, token, below).value < below
  {
    if below > 0 {
      FindTokenBound(rows, token, below - 1);
    }
  }

  lemma ValidateStepInv(dig: Digest, cfg: Settings, s: State, a: Action)
    requires Inv(dig, s) && (a.Validate? || a.ValidateCheck? || a.Slide?)
    ensures Inv(dig, ValidateStep(cfg, s, a))
  {
    hide Inv, FindToken, SessionExpired;
    var s' := ValidateStep(cfg, s, a);
    if a.Slide? && CallOf(s, a.w).Sliding? {
      ShrunkInv(dig, s, s');
    } else if s' != s {
      OwnCallOk(dig, s, a.w);
      if a.Validate? {
        FindTokenBound(s.rows, a.token, s.nextId);
        RowEnds(dig, s);
      }
      OneCall(dig, s, s', a.w);
    }
  }

  lemma RowEnds(dig: Digest, s: State)
    requires Inv(dig, s)
    ensures forall id :: id in s.rows ==> EndKnown(s, s.rows[id])
  {
    forall id | id in s.rows ensures EndKnown(s, s.rows[id]) {
      assert RowOk(dig, s, id, s.rows[id]);
    }
  }

  lemma OwnCallOk(dig: Digest, s: State, w: nat)
    requires Inv(dig, s)
    ensures TokensOk(s) && CallOk(dig, s, CallOf(s, w))
  {
  }

  // ---------- login ----------

  /** The login creates a row, a session and a token. */
  predicate LogsIn(s: State, a: Action) {
    && a.Login? && a.name in s.accounts && a.sessionId != "" && a.sessionId !in s.ends && a.jti !in s.drawn
  }

  lemma LoginTokens(dig: Digest, cfg: Settings, s: State, a: Action)
    requires Inv(dig, s) && LogsIn(s, a)
    ensures TokensOk(LoginStep(dig, cfg, s, a))
  {
    hide RowsOk, CallsOk;
    var s' := LoginStep(dig, cfg, s, a);
    forall c | c in s'.issued ensures ClaimsOk(s', c) {
      assert c in s.issued ==> ClaimsOk(s, c);
    }
    assert forall c :: c in s.issued ==> ClaimsOk(s, c);
  }

  lemma LoginRows(dig: Digest, cfg: Settings, s: State, a: Action)
    requires GoodDigest(dig) && Inv(dig, s) && LogsIn(s, a)
    ensures RowsOk(dig, LoginStep(dig, cfg, s, a))
  {
    hide GoodDigest, CallsOk;
    var s', id := LoginStep(dig, cfg, s, a), s.nextId;
    forall i | i in s'.rows ensures RowOk(dig, s', i, s'.rows[i]) {
      if i != id {
        assert RowOk(dig, s, i, s.rows[i]);
        OldRowOk(dig, s, s', i);
      } else {
        NewRowOk(dig, cfg, s, a);
      }
    }
    forall i, j | i in s'.rows && s'.rows[i].sessionId != "" && IsRowOf(s'.rows, s'.rows[i].name, s'.rows[i].sessionId, j)
      ensures i == j
    {
      if i != id { assert RowOk(dig, s, i, s.rows[i]); }
      if j != id { assert RowOk(dig, s, j, s.rows[j]); }
      if i != id && j != id { assert IsRowOf(s.rows, s.rows[i].name, s.rows[i].sessionId, j); }
    }
  }

  /** More tokens and sessions leave a row as it was. */
  lemma OldRowOk(dig: Digest, s: State, s': State, i: nat)
    requires i in s.rows && RowOk(dig, s, i, s.rows[i])
    requires s.nextId <= s'.nextId && s'.redeemed == s.redeemed && s.issued <= s'.issued
    requires forall x :: x in s.ends ==> x in s'.ends && s'.ends[x] == s.ends[x]
    ensures RowOk(dig, s', i, s.rows[i])
  {
    if s.rows[i].refreshJti != "" {
      var x :| x in s.issued && Owns(dig, s.rows[i], x);
      assert x in s'.issued;
    }
  }

  lemma NewRowOk(dig: Digest, cfg: Settings, s: State, a: Action)
    requires GoodDigest(dig) && Inv(dig, s) && LogsIn(s, a)
    ensures var s' := LoginStep(dig, cfg, s, a);
            RowOk(dig, s', s.nextId, s'.rows[s.nextId])
  {
    hide GoodDigest, CallsOk, RowsOk;
    var s' := LoginStep(dig, cfg, s, a);
    forall c | c in s.redeemed ensures dig(a.jti) != dig(c.jti) {
      assert ClaimsOk(s, c);
      DigestsDiffer(dig, a.jti, c.jti);
    }
    DigestNonempty(dig, a.jti);
    var x := Claims(a.jti, a.name, a.sessionId, s.accounts[a.name].pwdVer, a.now + cfg.refreshExpiry);
    assert x in s'.issued && Owns(dig, s'.rows[s.nextId], x);
  }

  lemma LoginCalls(dig: Digest, cfg: Settings, s: State, a: Action)
    requires Inv(dig, s) && LogsIn(s, a) && TokensOk(LoginStep(dig, cfg, s, a))
    ensures CallsOk(dig, LoginStep(dig, cfg, s, a))
  {
    hide RowsOk;
    var s' := LoginStep(dig, cfg, s, a);
    forall w | w in s'.calls ensures CallOk(dig, s', s'.calls[w]) {
      assert CallOk(dig, s, s.calls[w]);
    }
  }

  lemma LoginStepInv(dig: Digest, cfg: Settings, s: State, a: Action)
    requires GoodDigest(dig) && Inv(dig, s) && a.Login?
    ensures Inv(dig, LoginStep(dig, cfg, s, a))
  {
    hide GoodDigest, TokensOk, RowsOk, CallsOk;
    if LogsIn(s, a) {
      LoginTokens(dig, cfg, s, a);
      LoginRows(dig, cfg, s, a);
      LoginCalls(dig, cfg, s, a);
    }
  }

  lemma DigestsDiffer(dig: Digest, x: string, y: string)
    requires GoodDigest(dig) && x != y
    ensures dig(x) != dig(y)
  {
  }

  lemma DigestNonempty(dig: Digest, x: string)
    requires GoodDigest(dig)
    ensures dig(x) != ""
  {
  }

  // ---------- the compare-and-swap ----------

  /** A token whose call may still swap has not been redeemed. */
  lemma SwapIsFirst(dig: Digest, s: State, call: Call)
    requires Inv(dig, s) && call.Ready? && CallOk(dig, s, call) && SwapSucceeds(s, call.id, call.row)
    ensures call.claims !in s.redeemed
  {
    assert RowOk(dig, s, call.id, s.rows[call.id]);
  }

  lemma NewClaimsOk(cfg: Settings, s: State, call: Call)
    requires TokensOk(s) && call.Ready? && SnapshotOk(s, call.claims, call.id, call.row) && call.newJti in s.drawn
    ensures ClaimsOk(s, NewClaims(cfg, call.claims, call.row, call.newJti, call.now))
  {
    assert ClaimsOk(s, call.claims);
  }

  lemma SwapStepInv(dig: Digest, cfg: Settings, s: State, a: Action)
    requires GoodDigest(dig) && Inv(dig, s) && a.Swap?
    ensures Inv(dig, SwapStep(dig, cfg, s, a))
  {
    hide GoodDigest, NewClaims;
    var call, s' := CallOf(s, a.w), SwapStep(dig, cfg, s, a);
    if call.Ready? {
      assert CallOk(dig, s, call);
      if !SwapSucceeds(s, call.id, call.row) {
        OneCall(dig, s, s', a.w);
      } else {
        NewClaimsOk(cfg, s, call);
        SwapTokens(dig, cfg, s, a);
        SwapRows(dig, cfg, s, a);
        SwapCalls(dig, cfg, s, a);
      }
    }
  }

  lemma SwapTokens(dig: Digest, cfg: Settings, s: State, a: Action)
    requires Inv(dig, s) && a.Swap? && CallOf(s, a.w).Ready? && CallOk(dig, s, CallOf(s, a.w))
    requires SwapSucceeds(s, CallOf(s, a.w).id, CallOf(s, a.w).row)
    ensures TokensOk(SwapStep(dig, cfg, s, a))
  {
    hide NewClaims;
    var call, s' := CallOf(s, a.w), SwapStep(dig, cfg, s, a);
    NewClaimsOk(cfg, s, call);
    NewClaimsNames(cfg, call);
    forall c | c in s'.issued ensures ClaimsOk(s', c) {
      assert c in s.issued ==> ClaimsOk(s, c);
    }
  }

  lemma SwapRows(dig: Digest, cfg: Settings, s: State, a: Action)
    requires GoodDigest(dig) && Inv(dig, s) && a.Swap? && CallOf(s, a.w).Ready? && CallOk(dig, s, CallOf(s, a.w))
    requires SwapSucceeds(s, CallOf(s, a.w).id, CallOf(s, a.w).row)
    ensures RowsOk(dig, SwapStep(dig, cfg, s, a))
  {
    hide GoodDigest, NewClaims;
    var call, s' := CallOf(s, a.w), SwapStep(dig, cfg, s, a);
    var c, id := call.claims, call.id;
    DigestNonempty(dig, call.newJti);
    forall x | x in s'.redeemed ensures dig(call.newJti) != dig(x.jti) {
      DigestsDiffer(dig, call.newJti, x.jti);
    }
    forall i | i in s'.rows ensures RowOk(dig, s', i, s'.rows[i]) {
      assert RowOk(dig, s, i, s.rows[i]);
      if i != id {
        OtherRowNotMatched(dig, s, call, i);
        OtherRowOk(dig, s, s', call, i);
      } else {
        assert Owns(dig, s'.rows[id], NewClaims(cfg, c, call.row, call.newJti, call.now)) by { NewClaimsNames(cfg, call); }
      }
    }
    forall i, j | i in s'.rows && s'.rows[i].sessionId != "" && IsRowOf(s'.rows, s'.rows[i].name, s'.rows[i].sessionId, j)
      ensures i == j
    {
      assert IsRowOf(s.rows, s.rows[i].name, s.rows[i].sessionId, j);
    }
  }

  lemma NewClaimsNames(cfg: Settings, call: Call)
    requires call.Ready?
    ensures var x := NewClaims(cfg, call.claims, call.row, call.newJti, call.now);
            x.jti == call.newJti && x.username == call.claims.username && x.sessionId == call.claims.sessionId
  {
  }

  lemma OtherRowOk(dig: Digest, s: State, s': State, call: Call, i: nat)
    requires GoodDigest(dig) && TokensOk(s) && call.Ready? && call.claims in s.issued && i in s.rows && RowOk(dig, s, i, s.rows[i])
    requires !(s.rows[i].name == call.claims.username && s.rows[i].sessionId == call.claims.sessionId)
    requires s'.nextId == s.nextId && s'.ends == s.ends && s.issued <= s'.issued && s'.redeemed == s.redeemed + {call.claims}
    ensures RowOk(dig, s', i, s.rows[i])
  {
    var row := s.rows[i];
    if row.refreshJti != "" {
      var x :| x in s.issued && Owns(dig, row, x);
      assert x in s'.issued;
      assert dig(call.claims.jti) != dig(x.jti);
    } else {
      DigestNonempty(dig, call.claims.jti);
    }
  }

  /** The redeemed token does not open any other row. */
  lemma OtherRowNotMatched(dig: Digest, s: State, call: Call, i: nat)
    requires Inv(dig, s) && call.Ready? && CallOk(dig, s, call) && SwapSucceeds(s, call.id, call.row)
    requires i in s.rows && i != call.id
    ensures !(s.rows[i].name == call.claims.username && s.rows[i].sessionId == call.claims.sessionId)
  {
    assert IsRowOf(s.rows, call.row.name, call.row.sessionId, call.id);
    assert IsRowOf(s.rows, s.rows[i].name, s.rows[i].sessionId, i);
    assert !IsRowOf(s.rows, s.rows[i].name, s.rows[i].sessionId, call.id);
  }

  lemma SwapCalls(dig: Digest, cfg: Settings, s: State, a: Action)
    requires Inv(dig, s) && a.Swap? && CallOf(s, a.w).Ready? && CallOk(dig, s, CallOf(s, a.w))
    requires SwapSucceeds(s, CallOf(s, a.w).id, CallOf(s, a.w).row) && TokensOk(SwapStep(dig, cfg, s, a))
    ensures CallsOk(dig, SwapStep(dig, cfg, s, a))
  {
    var call, s' := CallOf(s, a.w), SwapStep(dig, cfg, s, a);
    assert a.w in s.calls;
    forall w | w in s'.calls ensures CallOk(dig, s', s'.calls[w]) {
      if w != a.w {
        assert CallOk(dig, s, s.calls[w]);
        assert s.calls[w].Ready? ==> s.calls[w].newJti != call.newJti;
      }
    }
  }

  // ---------- every run ----------

  /** What only grows or stays: session ends, tokens, and the ids of rows, which are never used again. */
  ghost predicate Forward(s: State, s': State) {
    && s.nextId <= s'.nextId && s.issued <= s'.issued && s.redeemed <= s'.redeemed
    && (forall x :: x in s.ends ==> x in s'.ends && s'.ends[x] == s.ends[x])
    && (forall id :: id in s'.rows && id < s.nextId ==>
          id in s.rows && s'.rows[id].endsAt == s.rows[id].endsAt && s'.rows[id].sessionId == s.rows[id].sessionId)
  }

  lemma StepForward(dig: Digest, cfg: Settings, s: State, a: Action)
    ensures Forward(s, Step(dig, cfg, s, a))
  {
    hide Objection, NewClaims, FindRow, FindToken, SessionExpired;
  }

  lemma StepInv(dig: Digest, cfg: Settings, s: State, a: Action)
    requires GoodDigest(dig) && Inv(dig, s)
    ensures Inv(dig, Step(dig, cfg, s, a))
  {
    hide Inv, GoodDigest, LoginStep, PresentStep, ReadStep, CheckStep, SwapStep, RevokeStep, ValidateStep, DeleteStep;
    match a
    case Login(_, _, _, _, _) => LoginStepInv(dig, cfg, s, a);
    case Present(_, _, _) => PresentStepInv(dig, s, a);
    case ReadRow(_) => ReadStepInv(dig, s, a);
    case Check(_, _, _) => CheckStepInv(dig, cfg, s, a);
    case Swap(_, _) => SwapStepInv(dig, cfg, s, a);
    case Revoke(_) => RevokeStepInv(dig, s, a);
    case Validate(_, _) => ValidateStepInv(dig, cfg, s, a);
    case ValidateCheck(_, _) => ValidateStepInv(dig, cfg, s, a);
    case Slide(_) => ValidateStepInv(dig, cfg, s, a);
    case _ => DeleteStepInv(dig, s, a);
  }

  lemma ForwardTwice(a: State, b: State, c: State)
    requires Forward(a, b) && Forward(b, c)
    ensures Forward(a, c)
  {
  }

  /** Every interleaving keeps the invariant; a session's absolute end never moves and a deleted row never returns. */
  lemma {:induction false} RunInv(dig: Digest, cfg: Settings, s: State, actions: seq<Action>)
    requires GoodDigest(dig) && Inv(dig, s)
    ensures Inv(dig, Run(dig, cfg, s, actions))
    ensures Forward(s, Run(dig, cfg, s, actions))
    decreases |actions|
  {
    hide Inv, GoodDigest, Step, Forward;
    if actions == [] {
      assert Forward(s, s) by { StaysPut(s); }
    } else {
      var n := |actions| - 1;
      var before := Run(dig, cfg, s, actions[..n]);
      RunInv(dig, cfg, s, actions[..n]);
      StepInv(dig, cfg, before, actions[n]);
      StepForward(dig, cfg, before, actions[n]);
      ForwardTwice(s, before, Run(dig, cfg, s, actions));
    }
  }

  lemma StaysPut(s: State)
    ensures Forward(s, s)
  {
  }

  /** No token outlives its session, however often it was refreshed. */
  lemma TokensEndWithSession(dig: Digest, cfg: Settings, s: State, actions: seq<Action>, c: Claims)
    requires GoodDigest(dig) && Inv(dig, s) && c in Run(dig, cfg, s, actions).issued && c.sessionId in s.ends
    ensures c.expiresAt <= s.ends[c.sessionId]
  {
    hide GoodDigest;
    RunInv(dig, cfg, s, actions);
    assert ClaimsOk(Run(dig, cfg, s, actions), c);
  }

  /** What a call has read of its session's row, while it decides on it. */
  function ReadBy(call: Call): Option<Row> {
    match call
    case Read(_, _, row) => Some(row)
    case Validating(_, row) => Some(row)
    case _ => None
  }

  /**
   Once the end of a session has passed, no refresh and no validation accepts a row that carries it, whatever has
   happened before: the call goes on to delete the row.
   */
  lemma NothingAcceptedBeyondEnd(dig: Digest, cfg: Settings, s: State, actions: seq<Action>, w: nat, now: int, newJti: string)
    requires GoodDigest(dig) && Inv(dig, s)
    requires var row := ReadBy(CallOf(Run(dig, cfg, s, actions), w));
             row.Some? && row.value.endsAt.Some? && row.value.sessionId in s.ends && row.value.sessionId != ""
             && now > s.ends[row.value.sessionId]
    ensures var s' := Run(dig, cfg, s, actions);
            CallOf(s', w).Read? ==> CallOf(Step(dig, cfg, s', Check(w, now, newJti)), w).Revoking?
    ensures var s' := Run(dig, cfg, s, actions);
            CallOf(s', w).Validating? ==> CallOf(Step(dig, cfg, s', ValidateCheck(w, now)), w).Revoking?
  {
    hide GoodDigest, Run;
    RunInv(dig, cfg, s, actions);
    var s' := Run(dig, cfg, s, actions);
    OwnCallOk(dig, s', w);
    var row := ReadBy(CallOf(s', w)).value;
    assert s'.ends[row.sessionId] == s.ends[row.sessionId];
  }

  /** The step is a refresh that returns a new pair for this token. */
  predicate Redeems(s: State, a: Action, c: Claims) {
    a.Swap? && var call := CallOf(s, a.w); call.Ready? && call.claims == c && SwapSucceeds(s, call.id, call.row)
  }

  /** How often a run redeems a token. */
  function Redemptions(dig: Digest, cfg: Settings, s: State, actions: seq<Action>, c: Claims): nat {
    if actions == [] then 0
    else
      var n := |actions| - 1;
      Redemptions(dig, cfg, s, actions[..n], c) + if Redeems(Run(dig, cfg, s, actions[..n]), actions[n], c) then 1 else 0
  }

  lemma RedeemsOnce(dig: Digest, cfg: Settings, s: State, a: Action, c: Claims)
    requires Inv(dig, s)
    ensures Redeems(s, a, c) ==> c !in s.redeemed && c in Step(dig, cfg, s, a).redeemed
    ensures !Redeems(s, a, c) ==> (c in Step(dig, cfg, s, a).redeemed <==> c in s.redeemed)
  {
    hide Inv, NewClaims, Objection, FindRow, FindToken, SessionExpired;
    OwnStateOk(dig, s, a, c);
  }

  lemma OwnStateOk(dig: Digest, s: State, a: Action, c: Claims)
    requires Inv(dig, s)
    ensures Redeems(s, a, c) ==> c !in s.redeemed
  {
    if Redeems(s, a, c) {
      OwnCallOk(dig, s, a.w);
      SwapIsFirst(dig, s, CallOf(s, a.w));
    }
  }

  /** Each refresh token is redeemed at most once in any run, tokens of rows without a stored token id included. */
  lemma {:induction false} AtMostOneRedemption(dig: Digest, cfg: Settings, s: State, actions: seq<Action>, c: Claims)
    requires GoodDigest(dig) && Inv(dig, s) && c !in s.redeemed
    ensures Redemptions(dig, cfg, s, actions, c) == if c in Run(dig, cfg, s, actions).redeemed then 1 else 0
    decreases |actions|
  {
    hide Inv, GoodDigest, Step, Redeems;
    if actions != [] {
      var n := |actions| - 1;
      AtMostOneRedemption(dig, cfg, s, actions[..n], c);
      RunInv(dig, cfg, s, actions[..n]);
      RedeemsOnce(dig, cfg, Run(dig, cfg, s, actions[..n]), actions[n], c);
    }
  }

  // ---------- reuse ----------

  /**
   A call that presents a token already redeemed, before or while it ran, can only end by deleting the session: its
   swap fails, and so does its check unless it had read the row before the redemption.
   */
  lemma ReuseRevokes(dig: Digest, cfg: Settings, s: State, w: nat)
    requires Inv(dig, s) && CallOf(s, w).Ready? && CallOf(s, w).claims in s.redeemed
    ensures forall token :: CallOf(Step(dig, cfg, s, Swap(w, token)), w) == Revoking(CallOf(s, w).id, true)
  {
    hide NewClaims;
    var call := CallOf(s, w);
    OwnCallOk(dig, s, w);
    if SwapSucceeds(s, call.id, call.row) {
      SwapIsFirst(dig, s, call);
    }
  }

  /** Revoking ends the call, deletes the row, and in no continuation does it come back. */
  lemma RevokedStaysRevoked(dig: Digest, cfg: Settings, s: State, w: nat, actions: seq<Action>)
    requires GoodDigest(dig) && Inv(dig, s) && CallOf(s, w).Revoking?
    ensures CallOf(Step(dig, cfg, s, Revoke(w)), w) == Idle
    ensures CallOf(s, w).id !in Run(dig, cfg, Step(dig, cfg, s, Revoke(w)), actions).rows
  {
    hide Inv, GoodDigest, Run;
    OwnCallOk(dig, s, w);
    StepInv(dig, cfg, s, Revoke(w));
    RunInv(dig, cfg, Step(dig, cfg, s, Revoke(w)), actions);
  }

  /** No row of the session that the token belongs to. */
  predicate SessionGone(s: State, c: Claims) {
    forall id :: id in s.rows ==> !IsRowOf(s.rows, c.username, c.sessionId, id)
  }

  /** The call has presented this token and is somewhere before its end. */
  predicate Carries(call: Call, c: Claims) {
    match call
    case Presented(x) => x == c
    case Read(x, _, _) => x == c
    case Ready(x, _, _, _, _) => x == c
    case _ => false
  }

  /** The session has no row but, at most, this one. */
  predicate OnlyRow(s: State, c: Claims, id: nat) {
    forall j :: j in s.rows && IsRowOf(s.rows, c.username, c.sessionId, j) ==> j == id
  }

  /** The token was redeemed, and the session is gone or the call is on its way to delete it. */
  predicate Doomed(s: State, w: nat, c: Claims) {
    && c in s.redeemed
    && (SessionGone(s, c) || Carries(CallOf(s, w), c)
        || (CallOf(s, w).Revoking? && OnlyRow(s, c, CallOf(s, w).id)))
  }

  /** Rows of a session that a token was issued for are never added. */
  lemma NoNewRows(dig: Digest, cfg: Settings, s: State, a: Action, c: Claims)
    requires Inv(dig, s) && c in s.issued
    ensures SessionGone(s, c) ==> SessionGone(Step(dig, cfg, s, a), c)
    ensures forall id: nat :: OnlyRow(s, c, id) ==> OnlyRow(Step(dig, cfg, s, a), c, id)
  {
    hide Objection, NewClaims, FindRow, FindToken, SessionExpired, RowsOk, CallsOk;
    assert ClaimsOk(s, c);
    assert forall id :: IsRowOf(Step(dig, cfg, s, a).rows, c.username, c.sessionId, id) ==> IsRowOf(s.rows, c.username, c.sessionId, id);
  }

  lemma OwnSnapshot(dig: Digest, s: State, w: nat, c: Claims)
    requires Inv(dig, s) && Carries(CallOf(s, w), c) && !CallOf(s, w).Presented?
    ensures OnlyRow(s, c, CallOf(s, w).id) && c in s.issued
  {
    OwnCallOk(dig, s, w);
  }

  /** What becomes of a call that carries a redeemed token: it still does, or it revokes, or it found no row. */
  lemma DoomedCall(dig: Digest, cfg: Settings, s: State, a: Action, w: nat, c: Claims)
    requires Inv(dig, s) && c in s.redeemed && Carries(CallOf(s, w), c)
    ensures var call := CallOf(Step(dig, cfg, s, a), w);
            Carries(call, c) || SessionGone(s, c) || (call.Revoking? && OnlyRow(s, c, call.id))
  {
    hide Inv, NewClaims, FindRow, FindToken, SessionExpired, SwapSucceeds;
    var call := CallOf(s, w);
    OwnCallOk(dig, s, w);
    if call.Presented? {
      FindRowMeaning(s.rows, c.username, c.sessionId, s.nextId);
      RowsBelow(dig, s);
    } else {
      OwnSnapshot(dig, s, w, c);
    }
    if call.Ready? && SwapSucceeds(s, call.id, call.row) {
      SwapIsFirst(dig, s, call);
    }
  }

  lemma RowsBelow(dig: Digest, s: State)
    requires Inv(dig, s)
    ensures forall id :: id in s.rows ==> id < s.nextId
  {
    forall id | id in s.rows ensures id < s.nextId {
      assert RowOk(dig, s, id, s.rows[id]);
    }
  }

  /** A revoking call revokes. */
  lemma RevokingCall(dig: Digest, cfg: Settings, s: State, a: Action, w: nat, c: Claims)
    requires CallOf(s, w).Revoking? && OnlyRow(s, c, CallOf(s, w).id)
    ensures CallOf(Step(dig, cfg, s, a), w) == CallOf(s, w) || SessionGone(Step(dig, cfg, s, a), c)
  {
    hide Objection, NewClaims, FindRow, FindToken, SessionExpired, SwapSucceeds;
  }

  lemma DoomedStep(dig: Digest, cfg: Settings, s: State, a: Action, w: nat, c: Claims)
    requires Inv(dig, s) && Doomed(s, w, c)
    ensures Doomed(Step(dig, cfg, s, a), w, c)
  {
    hide Step, SessionGone, OnlyRow, Carries, Inv;
    assert c in s.issued by { RedeemedIsIssued(dig, s, c); }
    NoNewRows(dig, cfg, s, a, c);
    StepForward(dig, cfg, s, a);
    if Carries(CallOf(s, w), c) {
      DoomedCall(dig, cfg, s, a, w, c);
    } else if CallOf(s, w).Revoking? && OnlyRow(s, c, CallOf(s, w).id) {
      RevokingCall(dig, cfg, s, a, w, c);
    }
  }

  lemma RedeemedIsIssued(dig: Digest, s: State, c: Claims)
    requires Inv(dig, s) && c in s.redeemed
    ensures c in s.issued
  {
  }

  lemma {:induction false} DoomedRun(dig: Digest, cfg: Settings, s: State, actions: seq<Action>, w: nat, c: Claims)
    requires GoodDigest(dig) && Inv(dig, s) && Doomed(s, w, c)
    ensures Doomed(Run(dig, cfg, s, actions), w, c)
    decreases |actions|
  {
    hide Inv, GoodDigest, Step, Doomed;
    if actions != [] {
      var n := |actions| - 1;
      DoomedRun(dig, cfg, s, actions[..n], w, c);
      RunInv(dig, cfg, s, actions[..n]);
      DoomedStep(dig, cfg, Run(dig, cfg, s, actions[..n]), actions[n], w, c);
    }
  }

  /** A session that is gone stays gone. */
  lemma {:induction false} GoneStaysGone(dig: Digest, cfg: Settings, s: State, actions: seq<Action>, c: Claims)
    requires GoodDigest(dig) && Inv(dig, s) && c in s.issued && SessionGone(s, c)
    ensures SessionGone(Run(dig, cfg, s, actions), c)
    decreases |actions|
  {
    hide Inv, GoodDigest, Step, SessionGone;
    if actions != [] {
      var n := |actions| - 1;
      GoneStaysGone(dig, cfg, s, actions[..n], c);
      RunInv(dig, cfg, s, actions[..n]);
      assert c in Run(dig, cfg, s, actions[..n]).issued by { IssuedStays(s, Run(dig, cfg, s, actions[..n]), c); }
      NoNewRows(dig, cfg, Run(dig, cfg, s, actions[..n]), actions[n], c);
    }
  }

  lemma IssuedStays(s: State, s': State, c: Claims)
    requires Forward(s, s') && c in s.issued
    ensures c in s'.issued
  {
  }

  /**
   Reuse detection over every interleaving: a call with a token that was redeemed before or while it ran, wherever it
   stands and whatever the others do, ends with its session deleted, and the session never comes back.
   */
  lemma ReuseEndsSession(dig: Digest, cfg: Settings, s: State, w: nat, c: Claims, actions: seq<Action>, more: seq<Action>)
    requires GoodDigest(dig) && Inv(dig, s) && c in s.redeemed && Carries(CallOf(s, w), c)
    ensures var s' := Run(dig, cfg, s, actions);
            CallOf(s', w).Idle? ==> SessionGone(s', c) && SessionGone(Run(dig, cfg, s', more), c)
  {
    hide Inv, GoodDigest, Run, SessionGone, OnlyRow;
    var s' := Run(dig, cfg, s, actions);
    DoomedRun(dig, cfg, s, actions, w, c);
    RunInv(dig, cfg, s, actions);
    assert c in s'.issued by { RedeemedIsIssued(dig, s', c); }
    if CallOf(s', w).Idle? {
      GoneStaysGone(dig, cfg, s', more, c);
    }
  }

  /** So of two calls that race with one token, when one wins, the other ends the session. */
  lemma RaceEndsSession(dig: Digest, cfg: Settings, s: State, v: nat, w: nat, c: Claims, token: string, actions: seq<Action>)
    requires GoodDigest(dig) && Inv(dig, s) && v != w
    requires Redeems(s, Swap(v, token), c) && Carries(CallOf(s, w), c)
    ensures var s' := Run(dig, cfg, Step(dig, cfg, s, Swap(v, token)), actions);
            CallOf(s', w).Idle? ==> SessionGone(s', c)
  {
    hide Inv, GoodDigest, Run, SessionGone, NewClaims;
    RedeemsOnce(dig, cfg, s, Swap(v, token), c);
    StepInv(dig, cfg, s, Swap(v, token));
    ReuseEndsSession(dig, cfg, Step(dig, cfg, s, Swap(v, token)), w, c, actions, []);
  }

  /** The sessions of an older version: their rows store no token id and no end, and may lack a session id. */
  ghost predicate Legacy(rows: map<nat, Row>, nextId: nat) {
    && (forall id :: id in rows ==> id < nextId && rows[id].refreshJti == "" && rows[id].endsAt.None?)
    && (forall i, j :: i in rows && rows[i].sessionId != "" && IsRowOf(rows, rows[i].name, rows[i].sessionId, j) ==> i == j)
  }

  /** A database of such sessions, with the tokens issued for them, before the first call. */
  lemma LegacySessionsOk(dig: Digest, rows: map<nat, Row>, nextId: nat, accounts: map<string, Account>,
                         tokens: set<Claims>, ends: map<string, int>)
    requires Legacy(rows, nextId)
    requires forall id :: id in rows && rows[id].sessionId != "" ==> rows[id].sessionId in ends
    requires forall c :: c in tokens ==> c.sessionId in ends && c.expiresAt <= ends[c.sessionId]
    requires forall c, x :: c in tokens && x in tokens && c.jti == x.jti ==> c == x
    ensures Inv(dig, State(rows, nextId, accounts, map[], tokens, set c | c in tokens :: c.jti, {}, ends))
  {
    var s := State(rows, nextId, accounts, map[], tokens, set c | c in tokens :: c.jti, {}, ends);
    forall c | c in s.issued ensures ClaimsOk(s, c) {
    }
    forall id | id in s.rows ensures RowOk(dig, s, id, s.rows[id]) {
    }
  }
}
