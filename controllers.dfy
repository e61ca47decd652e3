/**
 * The wallet-account handlers. Each is a chain of early-return checks that
 * ends in an HTTP status and at most one table mutation. A pure decision
 * function per handler states which check rejects the request, or which
 * record reaches the store; the handler methods on Server are proved to
 * follow it and to touch only rows that belong to the caller.
 */
module Controllers {
  import opened Wrappers
  import opened Text
  import opened Decimal
  import opened Models

  const StatusOK: int := 200
  const StatusCreated: int := 201
  const StatusNoContent: int := 204
  const StatusBadRequest: int := 400
  const StatusUnauthorized: int := 401
  const StatusNotFound: int := 404
  const StatusUnprocessableEntity: int := 422
  const StatusInternalServerError: int := 500

  /** Why a request body yielded no record: ioutil.ReadAll or json.Unmarshal failed. */
  datatype BodyError = ReadFailed | MalformedJson

  /** The request body, decoded into a WalletAccount or not. */
  type Body = Result<WalletAccount, BodyError>

  /** The user id carried by the bearer token, None when it is absent or invalid. */
  type Token = Option<string>

  /** A handler's checks either reject the request or hand one record to the store. */
  datatype Decision = Reject(status: int) | Proceed(record: WalletAccount)

  /** The `where id = ?` lookup both mutating handlers issue. */
  function Lookup(rows: Rows, pid: uint64, dbOk: bool): Option<WalletAccount>
  {
    if dbOk && pid in rows then Some(rows[pid]) else None
  }

  /** CreateWalletAccount: decode, Prepare, Validate, then the token against the prepared user id. */
  function CreateDecision(body: Body, token: Token, now: Time): Decision
  {
    if body.Err? then Reject(StatusUnprocessableEntity)
    else
      var p := Prepared(body.value, now);
      if Validate(p).Some? then Reject(StatusUnprocessableEntity)
      else if token.None? then Reject(StatusUnauthorized)
      else if token.value != p.userID then Reject(StatusUnauthorized)
      else Proceed(p)
  }

  /**
   * UpdateWalletAccount: path id, token, row lookup, stored owner, body,
   * body owner (compared before Prepare), Validate, then the id is forced
   * to the fetched row's.
   */
  function UpdateDecision(rawId: string, token: Token, rows: Rows, lookupOk: bool, body: Body, now: Time): Decision
  {
    var pid := ParsedUint(rawId);
    if pid.None? then Reject(StatusBadRequest)
    else if token.None? then Reject(StatusUnauthorized)
    else
      var stored := Lookup(rows, pid.value, lookupOk);
      if stored.None? then Reject(StatusNotFound)
      else if token.value != stored.value.userID then Reject(StatusUnauthorized)
      else if body.Err? then Reject(StatusUnprocessableEntity)
      else if token.value != body.value.userID then Reject(StatusUnauthorized)
      else
        var p := Prepared(body.value, now);
        if Validate(p).Some? then Reject(StatusUnprocessableEntity)
        else Proceed(p.(id := stored.value.id))
  }

  /** DeleteWalletAccount: path id, token, row lookup, stored owner; Proceed carries the fetched row. */
  function DeleteDecision(rawId: string, token: Token, rows: Rows, lookupOk: bool): Decision
  {
    var pid := ParsedUint(rawId);
    if pid.None? then Reject(StatusBadRequest)
    else if token.None? then Reject(StatusUnauthorized)
    else
      var stored := Lookup(rows, pid.value, lookupOk);
      if stored.None? then Reject(StatusNotFound)
      else if token.value != stored.value.userID then Reject(StatusUnauthorized)
      else Proceed(stored.value)
  }

  /**
   * Create, in terms of the raw request: a blank field gives 422 whatever
   * the token; then a missing token, or one whose user id is not the
   * normalised body user id, gives 401; otherwise the prepared record, with
   * id 0 and enabled, goes to the store.
   */
  lemma CreateOutcomes(body: Body, token: Token, now: Time)
    ensures var d := CreateDecision(body, token, now);
      var blank := body.Ok? && (Blank(body.value.address) || Blank(body.value.coin) || Blank(body.value.userID));
      && (d == Reject(StatusUnprocessableEntity) <==> body.Err? || blank)
      && (d == Reject(StatusUnauthorized) <==>
            body.Ok? && !blank && (token.None? || token.value != Normalize(body.value.userID)))
      && (d.Proceed? <==> body.Ok? && !blank && token == Some(Normalize(body.value.userID)))
      && (d.Proceed? ==>
            d.record == Prepared(body.value, now) && d.record.id == 0 && d.record.enabled
            && Validate(d.record) == None && token == Some(d.record.userID))
  {
    if body.Ok? {
      ValidatePrepared(body.value, now);
    }
  }

  /**
   * Update precedence: each check wins over every later one, whatever the
   * later inputs are; the last one, a field blank after Prepare, gives 422.
   */
  lemma UpdatePrecedence(rawId: string, token: Token, rows: Rows, lookupOk: bool, body: Body, now: Time)
    ensures var d := UpdateDecision(rawId, token, rows, lookupOk, body, now);
      var pid := ParsedUint(rawId);
      && (pid.None? ==> d == Reject(StatusBadRequest))
      && (pid.Some? && token.None? ==> d == Reject(StatusUnauthorized))
      && (pid.Some? && token.Some? && !(lookupOk && pid.value in rows) ==> d == Reject(StatusNotFound))
      && (pid.Some? && token.Some? && lookupOk && pid.value in rows ==>
            && (token.value != rows[pid.value].userID ==> d == Reject(StatusUnauthorized))
            && (token.value == rows[pid.value].userID ==>
                  && (body.Err? ==> d == Reject(StatusUnprocessableEntity))
                  && (body.Ok? && body.value.userID != token.value ==> d == Reject(StatusUnauthorized))
                  && (body.Ok? && body.value.userID == token.value ==>
                        (d == Reject(StatusUnprocessableEntity) <==>
                          Blank(body.value.address) || Blank(body.value.coin) || Blank(body.value.userID)))))
  {
    if body.Ok? {
      ValidatePrepared(body.value, now);
    }
  }

  /**
   * Ownership on update: a record reaches the store only for an existing
   * row owned by the caller, whose id it takes, after the caller re-asserted
   * its own id in the body; the record is the prepared body, enabled and
   * valid, and its owner is the caller's id normalised.
   */
  lemma UpdateOwnership(rawId: string, token: Token, rows: Rows, lookupOk: bool, body: Body, now: Time)
    requires IdsMatchKeys(rows)
    ensures var d := UpdateDecision(rawId, token, rows, lookupOk, body, now);
      d.Proceed? ==>
        && ParsedUint(rawId) == Some(d.record.id)
        && lookupOk && d.record.id in rows
        && token == Some(rows[d.record.id].userID)
        && body.Ok? && Some(body.value.userID) == token
        && d.record == Prepared(body.value, now).(id := d.record.id)
        && d.record.enabled && Validate(d.record) == None
        && d.record.userID == Normalize(token.value)
  {
  }

  /**
   * An owner's update, the last check: once the id parses, the caller owns
   * the stored row and re-asserts the same user id in a decodable body, the
   * request is refused with 422 exactly when a field is blank after Prepare,
   * and otherwise proceeds with the prepared body under the row's id.
   */
  lemma UpdateOwnerOutcome(rawId: string, uid: string, rows: Rows, body: Body, now: Time)
    requires IdsMatchKeys(rows)
    requires ParsedUint(rawId).Some? && OwnedBy(rows, ParsedUint(rawId).value, uid)
    requires body.Ok? && body.value.userID == uid
    ensures var d := UpdateDecision(rawId, Some(uid), rows, true, body, now);
      var blank := Blank(body.value.address) || Blank(body.value.coin) || Blank(body.value.userID);
      && (d == Reject(StatusUnprocessableEntity) <==> blank)
      && (d.Proceed? <==> !blank)
      && (d.Proceed? ==> d.record == Prepared(body.value, now).(id := ParsedUint(rawId).value))
  {
    ValidatePrepared(body.value, now);
  }

  /**
   * The body's user id is compared before normalisation: a body that passes
   * every earlier check but pads the caller's id is refused with 401, though
   * create would accept the same padding.
   */
  lemma UpdateRejectsPaddedUserID(rawId: string, uid: string, rows: Rows, body: Body, now: Time)
    requires ParsedUint(rawId).Some? && OwnedBy(rows, ParsedUint(rawId).value, uid)
    requires body.Ok? && body.value.userID == " " + uid
    ensures UpdateDecision(rawId, Some(uid), rows, true, body, now) == Reject(StatusUnauthorized)
    ensures TrimSpace(body.value.userID) == TrimSpace(uid)
  {
    var s := body.value.userID;
    assert s[0] == ' ' && s[1..] == uid;
    TrimSpaceOfLeadingSpace(s);
    assert uid != s by {
      assert |s| == |uid| + 1;
    }
  }

  /**
   * An owner whose id holds a character html.EscapeString rewrites loses the
   * row on a successful update: the stored owner becomes the id escaped a
   * second time.
   */
  lemma UpdateRewritesEscapedOwner(rawId: string, token: Token, rows: Rows, lookupOk: bool, body: Body, now: Time)
    requires IdsMatchKeys(rows)
    requires UpdateDecision(rawId, token, rows, lookupOk, body, now).Proceed?
    ensures var d := UpdateDecision(rawId, token, rows, lookupOk, body, now);
      d.record.userID == rows[d.record.id].userID <==> Normalize(token.value) == token.value
  {
  }

  /**
   * Delete precedence and ownership: 400, 401, 404, 401 in that order; the
   * disable is reached only for an existing row owned by the caller, and
   * with exactly that row's id and owner.
   */
  lemma DeleteOutcomes(rawId: string, token: Token, rows: Rows, lookupOk: bool)
    requires IdsMatchKeys(rows)
    ensures var d := DeleteDecision(rawId, token, rows, lookupOk);
      var pid := ParsedUint(rawId);
      && (pid.None? ==> d == Reject(StatusBadRequest))
      && (pid.Some? && token.None? ==> d == Reject(StatusUnauthorized))
      && (pid.Some? && token.Some? && !(lookupOk && pid.value in rows) ==> d == Reject(StatusNotFound))
      && (pid.Some? && token.Some? && lookupOk && pid.value in rows ==>
            token.value != rows[pid.value].userID ==> d == Reject(StatusUnauthorized))
      && (d.Proceed? <==> pid.Some? && token.Some? && lookupOk && OwnedBy(rows, pid.value, token.value))
      && (d.Proceed? ==> d.record.id == pid.value && d.record == rows[pid.value] && Some(d.record.userID) == token)
  {
  }

  /** Every row that changed belonged to the caller; no row appeared or vanished. */
  ghost predicate TouchesOnlyOwnRows(before: Rows, after: Rows, caller: Token)
  {
    && after.Keys == before.Keys
    && forall id | id in before :: after[id] != before[id] ==> caller == Some(before[id].userID)
  }

  /** Adding a row under a new id keeps every existing row. */
  lemma InsertKeepsRows(before: Rows, id: uint64, rec: WalletAccount)
    requires id !in before
    ensures KeepsRows(before, before[id := rec])
  {
    forall k | k in before
      ensures k in before[id := rec] && before[id := rec][k] == before[k]
    {
      assert k != id;
    }
  }

  /** Replacing one row the caller owns touches only the caller's rows. */
  lemma OwnRowOverwrite(before: Rows, id: uint64, rec: WalletAccount, caller: Token)
    requires id in before && caller == Some(before[id].userID)
    ensures TouchesOnlyOwnRows(before, before[id := rec], caller)
  {
    var after := before[id := rec];
    assert after.Keys == before.Keys;
    forall k | k in before && after[k] != before[k]
      ensures caller == Some(before[k].userID)
    {
      assert k == id;
    }
  }

  /** Every existing row is still there, unchanged. */
  ghost predicate KeepsRows(before: Rows, after: Rows)
  {
    forall id | id in before :: id in after && after[id] == before[id]
  }

  /** The service: its handlers share one table. */
  class Server {
    const db: WalletAccountTable

    ghost predicate Valid()
      reads this, db
    {
      db.Valid()
    }

    constructor (db: WalletAccountTable)
      requires db.Valid()
      ensures Valid() && this.db == db
    {
      this.db := db;
    }

    /**
     * POST /WalletAccounts. A rejected request leaves the table unchanged; an
     * accepted one inserts the prepared record and answers 201 with it, or
     * 500 when the store refuses it (a duplicate address among others).
     */
    method CreateWalletAccount(body: Body, token: Token, now: Time, writeOk: bool)
      returns (status: int, response: Option<WalletAccount>)
      requires Valid()
      modifies db
      ensures Valid()
      ensures KeepsRows(old(db.rows), db.rows)
      ensures status == StatusCreated ==> response.Some? && response.value.id > 0 && response.value.enabled
      ensures match CreateDecision(body, token, now)
        case Reject(s) =>
          status == s && response == None && db.rows == old(db.rows) && db.nextID == old(db.nextID)
        case Proceed(rec) =>
          if SaveFailure(old(db.rows), old(db.nextID), rec, writeOk).Some? then
            status == StatusInternalServerError && response == None
            && db.rows == old(db.rows) && db.nextID == old(db.nextID)
          else
            && status == StatusCreated && response.Some?
            && response.value.id == old(db.nextID)
            && response.value == rec.(id := response.value.id)
            && response.value.id !in old(db.rows)
            && db.rows == old(db.rows)[response.value.id := response.value]
    {
      ghost var d := CreateDecision(body, token, now);
      if body.Err? {
        assert d == Reject(StatusUnprocessableEntity);
        return StatusUnprocessableEntity, None;
      }
      var walletAccount := Prepare(body.value, now);
      if Validate(walletAccount).Some? {
        assert d == Reject(StatusUnprocessableEntity);
        return StatusUnprocessableEntity, None;
      }
      if token.None? {
        assert d == Reject(StatusUnauthorized);
        return StatusUnauthorized, None;
      }
      var uid := token.value;
      if uid != walletAccount.userID {
        assert d == Reject(StatusUnauthorized);
        return StatusUnauthorized, None;
      }
      assert d == Proceed(walletAccount) && walletAccount.id == 0 && walletAccount.enabled;
      var created, err := db.SaveWalletAccount(walletAccount, writeOk);
      if err.Some? {
        return StatusInternalServerError, None;
      }
      InsertKeepsRows(old(db.rows), created.id, created);
      return StatusCreated, Some(created);
    }

    /**
     * GET /WalletAccounts/{id}: 400 on a malformed id, 200 with the row, and
     * 500 (not 404) when no row has the id or the lookup fails.
     */
    method GetWalletAccount(rawId: string, lookupOk: bool) returns (status: int, response: Option<WalletAccount>)
      requires Valid()
      ensures ParsedUint(rawId).None? ==> status == StatusBadRequest && response == None
      ensures ParsedUint(rawId).Some? ==>
        var found := Lookup(db.rows, ParsedUint(rawId).value, lookupOk);
        && (found.None? ==> status == StatusInternalServerError && response == None)
        && (found.Some? ==> status == StatusOK && response == found && found.value.id == ParsedUint(rawId).value)
    {
      var pid := ParseUint(rawId);
      if pid.None? {
        return StatusBadRequest, None;
      }
      var walletAccountReceived, err := db.FindWalletAccountByID(pid.value, lookupOk);
      if err.Some? {
        return StatusInternalServerError, None;
      }
      return StatusOK, Some(walletAccountReceived);
    }

    /**
     * PUT /WalletAccounts/{id}. A rejected request leaves the table
     * unchanged; an accepted one overwrites the caller's row with the
     * prepared body under the row's own id and answers 200, or 500 when the
     * store refuses it. Only a row the caller owns ever changes.
     */
    method UpdateWalletAccount(rawId: string, token: Token, body: Body, now: Time, lookupOk: bool, writeOk: bool)
      returns (status: int, response: Option<WalletAccount>)
      requires Valid()
      modifies db
      ensures Valid() && db.nextID == old(db.nextID)
      ensures TouchesOnlyOwnRows(old(db.rows), db.rows, token)
      ensures match UpdateDecision(rawId, token, old(db.rows), lookupOk, body, now)
        case Reject(s) => status == s && response == None && db.rows == old(db.rows)
        case Proceed(rec) =>
          if UpdateFailure(old(db.rows), rec, writeOk).Some? then
            status == StatusInternalServerError && response == None && db.rows == old(db.rows)
          else
            status == StatusOK && response == Some(rec) && db.rows == old(db.rows)[rec.id := rec]
    {
      ghost var d := UpdateDecision(rawId, token, db.rows, lookupOk, body, now);
      UpdateOwnership(rawId, token, db.rows, lookupOk, body, now);
      var pid := ParseUint(rawId);
      if pid.None? {
        assert d == Reject(StatusBadRequest);
        return StatusBadRequest, None;
      }
      if token.None? {
        assert d == Reject(StatusUnauthorized);
        return StatusUnauthorized, None;
      }
      var uid := token.value;
      var walletAccount, err := db.FindWalletAccountByID(pid.value, lookupOk);
      if err.Some? {
        assert d == Reject(StatusNotFound);
        return StatusNotFound, None;
      }
      if uid != walletAccount.userID {
        assert d == Reject(StatusUnauthorized);
        return StatusUnauthorized, None;
      }
      if body.Err? {
        assert d == Reject(StatusUnprocessableEntity);
        return StatusUnprocessableEntity, None;
      }
      var walletAccountUpdate := body.value;
      if uid != walletAccountUpdate.userID {
        assert d == Reject(StatusUnauthorized);
        return StatusUnauthorized, None;
      }
      walletAccountUpdate := Prepare(walletAccountUpdate, now);
      if Validate(walletAccountUpdate).Some? {
        assert d == Reject(StatusUnprocessableEntity);
        return StatusUnprocessableEntity, None;
      }
      walletAccountUpdate := walletAccountUpdate.(id := walletAccount.id);
      assert d == Proceed(walletAccountUpdate);
      OwnRowOverwrite(db.rows, walletAccountUpdate.id, walletAccountUpdate, token);
      var walletAccountUpdated, err2 := db.UpdateAWalletAccount(walletAccountUpdate, writeOk);
      if err2.Some? {
        return StatusInternalServerError, None;
      }
      return StatusOK, Some(walletAccountUpdated);
    }

    /**
     * DELETE /WalletAccounts/{id}. The handler calls DeleteAWalletAccount,
     * modelled here as the soft delete DisableWalletAccount. A rejected
     * request leaves the table unchanged; an accepted one disables the
     * caller's row via (id, caller) and answers 204, or 400 when the store
     * fails. Only a row the caller owns ever changes.
     */
    method DeleteWalletAccount(rawId: string, token: Token, lookupOk: bool, writeOk: bool) returns (status: int)
      requires Valid()
      modifies db
      ensures Valid() && db.nextID == old(db.nextID)
      ensures TouchesOnlyOwnRows(old(db.rows), db.rows, token)
      ensures match DeleteDecision(rawId, token, old(db.rows), lookupOk)
        case Reject(s) => status == s && db.rows == old(db.rows)
        case Proceed(rec) =>
          if writeOk then
            status == StatusNoContent
            && db.rows == Disabled(old(db.rows), rec.id, token.value)
            && db.rows == old(db.rows)[rec.id := rec.(enabled := false)]
          else
            status == StatusBadRequest && db.rows == old(db.rows)
    {
      DeleteOutcomes(rawId, token, db.rows, lookupOk);
      var pid := ParseUint(rawId);
      if pid.None? {
        return StatusBadRequest;
      }
      if token.None? {
        return StatusUnauthorized;
      }
      var uid := token.value;
      var walletAccount, err := db.FindWalletAccountByID(pid.value, lookupOk);
      if err.Some? {
        return StatusNotFound;
      }
      if uid != walletAccount.userID {
        return StatusUnauthorized;
      }
      OwnRowOverwrite(db.rows, pid.value, walletAccount.(enabled := false), token);
      var _, err2 := db.DisableWalletAccount(pid.value, uid, writeOk);
      if err2.Some? {
        return StatusBadRequest;
      }
      return StatusNoContent;
    }
  }

  /**
   * Create then read back: after a 201, a GET on the path the Location
   * header names (the new id written with %d) answers 200 with the record
   * create returned.
   */
  method CreateThenGet(server: Server, body: Body, token: Token, now: Time)
    returns (createStatus: int, created: Option<WalletAccount>, getStatus: int, fetched: Option<WalletAccount>)
    requires server.Valid()
    modifies server.db
    ensures server.Valid()
    ensures createStatus == StatusCreated ==> getStatus == StatusOK && fetched == created
  {
    createStatus, created := server.CreateWalletAccount(body, token, now, true);
    getStatus, fetched := 0, None;  // 0: no GET was issued
    if createStatus == StatusCreated {
      var path := FormatUint(created.value.id);
      ParseFormatted(created.value.id);
      getStatus, fetched := server.GetWalletAccount(path, true);
    }
  }
}
