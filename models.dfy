/**
 * The WalletAccount entity: its normalisation and validation rules, and the
 * store operations over a table of rows keyed by id, the table held in
 * memory in place of the relational database.
 */
module Models {
  import opened Wrappers
  import opened Text
  import opened Decimal

  /** A timestamp; the clock is read by the caller and passed in. */
  type Time = int

  /** One row of the wallet_accounts table. */
  datatype WalletAccount = WalletAccount(
    id: uint64,
    address: string,
    coin: string,
    userID: string,
    enabled: bool,
    createdAt: Time,
    updatedAt: Time)

  /** The zero value WalletAccount{}: what the store hands back beside an error. */
  const EmptyAccount: WalletAccount := WalletAccount(0, "", "", "", false, 0, 0)

  /** The record as Prepare leaves it. */
  function Prepared(wa: WalletAccount, now: Time): WalletAccount
  {
    wa.(id := 0,
        address := Normalize(wa.address),
        coin := Normalize(wa.coin),
        userID := Normalize(wa.userID),
        enabled := true,
        createdAt := now,
        updatedAt := now)
  }

  /**
   * Prepare: zeroes the id, trims and HTML-escapes the three string fields,
   * enables the record and stamps both times, one field after the other.
   */
  method Prepare(wa: WalletAccount, now: Time) returns (r: WalletAccount)
    ensures r == Prepared(wa, now)
  {
    r := wa;
    r := r.(id := 0);
    r := r.(address := Escape(TrimSpace(r.address)));
    r := r.(coin := Escape(TrimSpace(r.coin)));
    r := r.(userID := Escape(TrimSpace(r.userID)));
    r := r.(enabled := true);
    r := r.(createdAt := now);
    r := r.(updatedAt := now);
  }

  /**
   * Whatever the input held, a prepared record has id 0, is enabled, and
   * each string field is trimmed, safe for HTML, decodes back to the trimmed
   * input, and is empty exactly when the input field was blank.
   */
  lemma PreparedFields(wa: WalletAccount, now: Time)
    ensures var p := Prepared(wa, now);
      && p.id == 0 && p.enabled && p.createdAt == now && p.updatedAt == now
      && Trimmed(p.address) && Trimmed(p.coin) && Trimmed(p.userID)
      && HtmlSafe(p.address) && HtmlSafe(p.coin) && HtmlSafe(p.userID)
      && Unescape(p.address) == TrimSpace(wa.address)
      && Unescape(p.coin) == TrimSpace(wa.coin)
      && Unescape(p.userID) == TrimSpace(wa.userID)
      && (p.address == [] <==> Blank(wa.address))
      && (p.coin == [] <==> Blank(wa.coin))
      && (p.userID == [] <==> Blank(wa.userID))
  {
    NormalizeSpec(wa.address);
    NormalizeSpec(wa.coin);
    NormalizeSpec(wa.userID);
  }

  /** The errors Validate returns, one per required field. */
  datatype ValidationError = RequiredAddress | RequiredCoin | RequiredUserID

  /**
   * Validate: None when all three string fields are non-empty, otherwise the
   * error for the first empty one in the order address, coin, user id.
   */
  function Validate(wa: WalletAccount): (r: Option<ValidationError>)
    ensures r == None <==> wa.address != [] && wa.coin != [] && wa.userID != []
    ensures r == Some(RequiredAddress) <==> wa.address == []
    ensures r == Some(RequiredCoin) <==> wa.address != [] && wa.coin == []
    ensures r == Some(RequiredUserID) <==> wa.address != [] && wa.coin != [] && wa.userID == []
  {
    if wa.address == [] then Some(RequiredAddress)
    else if wa.coin == [] then Some(RequiredCoin)
    else if wa.userID == [] then Some(RequiredUserID)
    else None
  }

  /**
   * Prepare then Validate fails exactly on a blank input field, with the
   * error of the first blank one.
   */
  lemma ValidatePrepared(wa: WalletAccount, now: Time)
    ensures var r := Validate(Prepared(wa, now));
      && (r == None <==> !Blank(wa.address) && !Blank(wa.coin) && !Blank(wa.userID))
      && (r == Some(RequiredAddress) <==> Blank(wa.address))
      && (r == Some(RequiredCoin) <==> !Blank(wa.address) && Blank(wa.coin))
      && (r == Some(RequiredUserID) <==> !Blank(wa.address) && !Blank(wa.coin) && Blank(wa.userID))
  {
    PreparedFields(wa, now);
  }

  /** What the store reports instead of a result. */
  datatype StoreError =
    | ConnectionFailure   // the database did not execute the statement
    | DuplicateAddress    // the unique index on the address column
    | DuplicateKey        // an explicit id that is already a row's primary key
    | IdsExhausted        // the auto-increment counter is past 2^64 - 1
    | RecordNotFound      // no row has the id asked for

  /** FindAllWalletAccounts reads at most this many rows (LIMIT 100). */
  const FindAllLimit: nat := 100

  type Rows = map<uint64, WalletAccount>

  /** Every row is stored under its own id. */
  predicate IdsMatchKeys(rows: Rows)
  {
    forall id | id in rows :: rows[id].id == id
  }

  /** No two rows share an address: the unique constraint on the column. */
  predicate UniqueAddresses(rows: Rows)
  {
    forall i, j | i in rows && j in rows && rows[i].address == rows[j].address :: i == j
  }

  /** The ids of the rows that hold the given address. */
  function RowsWithAddress(rows: Rows, address: string): set<uint64>
  {
    set id | id in rows && rows[id].address == address
  }

  /** The error, if any, with which inserting wa fails (the first constraint it breaks). */
  function SaveFailure(rows: Rows, nextID: nat, wa: WalletAccount, dbOk: bool): Option<StoreError>
  {
    if !dbOk then Some(ConnectionFailure)
    else if RowsWithAddress(rows, wa.address) != {} then Some(DuplicateAddress)
    else if wa.id != 0 && wa.id in rows then Some(DuplicateKey)
    else if wa.id == 0 && nextID > MaxUint64 then Some(IdsExhausted)
    else None
  }

  /** The error, if any, with which overwriting the row wa.id with wa fails. */
  function UpdateFailure(rows: Rows, wa: WalletAccount, dbOk: bool): Option<StoreError>
  {
    if !dbOk then Some(ConnectionFailure)
    else if RowsWithAddress(rows, wa.address) - {wa.id} != {} then Some(DuplicateAddress)
    else None
  }

  /** The row pid exists and belongs to uid: the predicate `id = ? and User_id = ?`. */
  predicate OwnedBy(rows: Rows, pid: uint64, uid: string)
  {
    pid in rows && rows[pid].userID == uid
  }

  /**
   * The table after the guarded update: the row matching both id and owner
   * is disabled and every other row is left as it was.
   */
  function Disabled(rows: Rows, pid: uint64, uid: string): (r: Rows)
    ensures r.Keys == rows.Keys
    ensures forall id | id in rows ::
      r[id] == if id == pid && OwnedBy(rows, pid, uid) then rows[id].(enabled := false) else rows[id]
  {
    if OwnedBy(rows, pid, uid) then rows[pid := rows[pid].(enabled := false)] else rows
  }

  /** The wallet_accounts table. */
  class WalletAccountTable {
    var rows: Rows
    /** The value the auto-increment id column hands out next. */
    var nextID: nat

    ghost predicate Valid()
      reads this
    {
      && 1 <= nextID
      && IdsMatchKeys(rows)
      && UniqueAddresses(rows)
      && (forall id | id in rows :: 0 < id < nextID)
    }

    constructor ()
      ensures Valid() && rows == map[] && nextID == 1
    {
      rows := map[];
      nextID := 1;
    }

    /**
     * SaveWalletAccount: inserts wa. An id of 0 takes the next auto-increment
     * value; a non-zero id is kept. On failure the zero record comes back
     * and the table is unchanged.
     */
    method SaveWalletAccount(wa: WalletAccount, dbOk: bool) returns (saved: WalletAccount, err: Option<StoreError>)
      requires Valid()
      modifies this
      ensures Valid()
      ensures err == SaveFailure(old(rows), old(nextID), wa, dbOk)
      ensures dbOk && RowsWithAddress(old(rows), wa.address) != {} ==> err == Some(DuplicateAddress)
      ensures err.Some? ==> saved == EmptyAccount && rows == old(rows) && nextID == old(nextID)
      ensures err.None? ==>
        && saved == wa.(id := if wa.id == 0 then old(nextID) else wa.id)
        && saved.id !in old(rows)
        && rows == old(rows)[saved.id := saved]
    {
      if !dbOk {
        return EmptyAccount, Some(ConnectionFailure);
      }
      if RowsWithAddress(rows, wa.address) != {} {
        return EmptyAccount, Some(DuplicateAddress);
      }
      var id: uint64;
      if wa.id == 0 {
        if nextID > MaxUint64 {
          return EmptyAccount, Some(IdsExhausted);
        }
        id := nextID;
      } else {
        if wa.id in rows {
          return EmptyAccount, Some(DuplicateKey);
        }
        id := wa.id;
      }
      saved := wa.(id := id);
      forall k | k in rows ensures rows[k].address != saved.address {
        assert k !in RowsWithAddress(rows, wa.address);
      }
      rows := rows[id := saved];
      if nextID <= id {
        nextID := id + 1;
      }
      err := None;
    }

    /**
     * FindAllWalletAccounts: min(100, |rows|) distinct rows of the table, in
     * no particular order; an empty list beside an error.
     */
    method FindAllWalletAccounts(dbOk: bool) returns (list: seq<WalletAccount>, err: Option<StoreError>)
      requires Valid()
      ensures err == (if dbOk then None else Some(ConnectionFailure))
      ensures err.Some? ==> list == []
      ensures err.None? ==> |list| == if |rows| < FindAllLimit then |rows| else FindAllLimit
      ensures forall k :: 0 <= k < |list| ==> list[k].id in rows && rows[list[k].id] == list[k]
      ensures forall j, k :: 0 <= j < k < |list| ==> list[j].id != list[k].id
    {
      if !dbOk {
        return [], Some(ConnectionFailure);
      }
      list := [];
      var remaining := rows.Keys;
      while remaining != {} && |list| < FindAllLimit
        invariant remaining <= rows.Keys
        invariant |list| + |remaining| == |rows.Keys|
        invariant |list| <= FindAllLimit
        invariant forall k :: 0 <= k < |list| ==> list[k].id in rows && rows[list[k].id] == list[k]
        invariant forall k :: 0 <= k < |list| ==> list[k].id !in remaining
        invariant forall j, k :: 0 <= j < k < |list| ==> list[j].id != list[k].id
        decreases remaining
      {
        var id :| id in remaining;
        list := list + [rows[id]];
        remaining := remaining - {id};
      }
      err := None;
    }

    /**
     * FindWalletAccountByID: the row whose id is pid, or the zero record and
     * an error when there is none.
     */
    method FindWalletAccountByID(pid: uint64, dbOk: bool) returns (found: WalletAccount, err: Option<StoreError>)
      requires Valid()
      ensures err == None <==> dbOk && pid in rows
      ensures err == None ==> found == rows[pid] && found.id == pid
      ensures err != None ==> found == EmptyAccount && err == Some(if dbOk then RecordNotFound else ConnectionFailure)
    {
      if !dbOk {
        return EmptyAccount, Some(ConnectionFailure);
      }
      if pid !in rows {
        return EmptyAccount, Some(RecordNotFound);
      }
      return rows[pid], None;
    }

    /**
     * The full-row update the update handler relies on: the row stored under
     * wa.id becomes wa, subject to the unique address constraint. An id no
     * row has changes nothing.
     */
    method UpdateAWalletAccount(wa: WalletAccount, dbOk: bool) returns (updated: WalletAccount, err: Option<StoreError>)
      requires Valid()
      modifies this
      ensures Valid() && nextID == old(nextID)
      ensures err == UpdateFailure(old(rows), wa, dbOk)
      ensures err.Some? ==> updated == EmptyAccount && rows == old(rows)
      ensures err.None? ==> updated == wa && rows == if wa.id in old(rows) then old(rows)[wa.id := wa] else old(rows)
    {
      if !dbOk {
        return EmptyAccount, Some(ConnectionFailure);
      }
      if RowsWithAddress(rows, wa.address) - {wa.id} != {} {
        return EmptyAccount, Some(DuplicateAddress);
      }
      if wa.id in rows {
        forall k | k in rows && k != wa.id ensures rows[k].address != wa.address {
          assert k !in RowsWithAddress(rows, wa.address) - {wa.id};
        }
        rows := rows[wa.id := wa];
      }
      return wa, None;
    }

    /**
     * DisableWalletAccount: sets enabled to false on the row matching both
     * pid and uid, and reports how many rows matched; no match is 0 rows,
     * not an error.
     */
    method DisableWalletAccount(pid: uint64, uid: string, dbOk: bool) returns (affected: nat, err: Option<StoreError>)
      requires Valid()
      modifies this
      ensures Valid() && nextID == old(nextID)
      ensures err == (if dbOk then None else Some(ConnectionFailure))
      ensures err.Some? ==> affected == 0 && rows == old(rows)
      ensures err.None? ==> rows == Disabled(old(rows), pid, uid)
      ensures err.None? ==> affected == if OwnedBy(old(rows), pid, uid) then 1 else 0
    {
      if !dbOk {
        return 0, Some(ConnectionFailure);
      }
      if OwnedBy(rows, pid, uid) {
        rows := rows[pid := rows[pid].(enabled := false)];
        return 1, None;
      }
      return 0, None;
    }
  }
}
