/** `CredentialRequestDataServiceImpl`: the table of pre-authorised
    exchange state, one row per (issuer name, user) with the issuer's latest
    `c_nonce` and access token. The repository is a sequence of rows; its
    `save` replaces the row with the same id or appends a new one, as a JPA
    `save` merges by primary key. */
module CredentialRequestData {
  import opened Common

  /** A `java.util.UUID`. */
  type Uuid = nat

  datatype CredentialRequestData = CredentialRequestData(
    id: Uuid,
    issuerName: string,
    userId: string,
    issuerNonce: string,
    issuerAccessToken: string)

  type Table = seq<CredentialRequestData>

  predicate IsFor(d: CredentialRequestData, issuerName: string, userId: string)
  {
    d.issuerName == issuerName && d.userId == userId
  }

  /** Row ids are distinct, and so are (issuer name, user) pairs. */
  predicate ValidTable(rows: Table)
  {
    forall i, j :: 0 <= i < j < |rows| ==>
      rows[i].id != rows[j].id && !IsFor(rows[j], rows[i].issuerName, rows[i].userId)
  }

  predicate IdInUse(rows: Table, id: Uuid)
  {
    exists i :: 0 <= i < |rows| && rows[i].id == id
  }

  /** Position of the row with primary key `id`. */
  function IndexOfId(rows: Table, id: Uuid): (r: Option<nat>)
    ensures r.Some? ==> r.value < |rows| && rows[r.value].id == id
    ensures r.Some? ==> forall j :: 0 <= j < r.value ==> rows[j].id != id
    ensures r.None? ==> !IdInUse(rows, id)
  {
    if |rows| == 0 then None
    else if rows[0].id == id then Some(0)
    else match IndexOfId(rows[1..], id)
      case Some(k) => Some(k + 1)
      case None => None
  }

  /** Position of the row of `(issuerName, userId)`. */
  function IndexOfPair(rows: Table, issuerName: string, userId: string): (r: Option<nat>)
    ensures r.Some? ==> r.value < |rows| && IsFor(rows[r.value], issuerName, userId)
    ensures r.Some? ==> forall j :: 0 <= j < r.value ==> !IsFor(rows[j], issuerName, userId)
    ensures r.None? ==> forall i :: 0 <= i < |rows| ==> !IsFor(rows[i], issuerName, userId)
  {
    if |rows| == 0 then None
    else if IsFor(rows[0], issuerName, userId) then Some(0)
    else match IndexOfPair(rows[1..], issuerName, userId)
      case Some(k) => Some(k + 1)
      case None => None
  }

  /** `CrudRepository.save`: overwrite the row with the same id, or insert. */
  function SaveRow(rows: Table, row: CredentialRequestData): (r: Table)
    ensures row in r && |rows| <= |r|
    ensures forall i :: 0 <= i < |rows| && rows[i].id != row.id ==> r[i] == rows[i]
    ensures IdInUse(rows, row.id) ==> |r| == |rows|
    ensures !IdInUse(rows, row.id) ==> r == rows + [row]
  {
    match IndexOfId(rows, row.id)
    case Some(k) =>
      var r := rows[k := row];
      assert r[k] == row;
      r
    case None => rows + [row]
  }

  /** `getCredentialRequestDataByIssuerName`: the row of the pair, or
      `CredentialRequestDataNotFoundException("The <issuer> was not found")`. */
  function Lookup(rows: Table, issuerName: string, userId: string): (r: Result<CredentialRequestData>)
    ensures r.Ok? <==> exists i :: 0 <= i < |rows| && IsFor(rows[i], issuerName, userId)
    ensures r.Ok? ==> r.value in rows && IsFor(r.value, issuerName, userId)
    ensures r.Err? ==> r.error == CredentialRequestDataNotFound("The " + issuerName + " was not found")
  {
    match IndexOfPair(rows, issuerName, userId)
    case Some(k) => Ok(rows[k])
    case None => Err(CredentialRequestDataNotFound("The " + issuerName + " was not found"))
  }

  /** `saveCredentialRequestData`: the row of the pair gets the new nonce and
      token and keeps its id; without one, a row with a fresh id is created. */
  function Upsert(rows: Table, issuerName: string, issuerNonce: string, issuerAccessToken: string,
                  userId: string, freshId: Uuid): (r: Table)
    ensures |rows| <= |r| <= |rows| + 1
    ensures exists i :: 0 <= i < |r| && IsFor(r[i], issuerName, userId)
                        && r[i].issuerNonce == issuerNonce && r[i].issuerAccessToken == issuerAccessToken
  {
    match Lookup(rows, issuerName, userId)
    case Ok(d) => SaveRow(rows, d.(issuerNonce := issuerNonce, issuerAccessToken := issuerAccessToken))
    case Err(_) => SaveRow(rows, CredentialRequestData(freshId, issuerName, userId, issuerNonce, issuerAccessToken))
  }

  /** The JPQL update behind `saveNewIssuerNonceByIssuerName`: every row of
      the pair gets the new nonce. */
  function RotateNonce(rows: Table, issuerName: string, userId: string, freshNonce: string): (r: Table)
    ensures |r| == |rows|
  {
    if |rows| == 0 then []
    else
      var head := if IsFor(rows[0], issuerName, userId) then rows[0].(issuerNonce := freshNonce) else rows[0];
      [head] + RotateNonce(rows[1..], issuerName, userId, freshNonce)
  }

  // ---------------------------------------------------------------------
  // Properties of the table operations

  /** In a valid table a row is found at the one position holding its key. */
  lemma IndexOfPairUnique(rows: Table, k: nat)
    requires ValidTable(rows) && k < |rows|
    ensures IndexOfPair(rows, rows[k].issuerName, rows[k].userId) == Some(k)
  {
  }

  lemma IndexOfIdUnique(rows: Table, k: nat)
    requires ValidTable(rows) && k < |rows|
    ensures IndexOfId(rows, rows[k].id) == Some(k)
  {
  }

  /** Saving keeps ids and pairs distinct, given a fresh id for a new row. */
  lemma {:induction false} UpsertValid(rows: Table, issuerName: string, issuerNonce: string,
                                       issuerAccessToken: string, userId: string, freshId: Uuid)
    requires ValidTable(rows) && !IdInUse(rows, freshId)
    ensures ValidTable(Upsert(rows, issuerName, issuerNonce, issuerAccessToken, userId, freshId))
  {
    var r := Upsert(rows, issuerName, issuerNonce, issuerAccessToken, userId, freshId);
    match Lookup(rows, issuerName, userId)
    case Ok(d) =>
      var k := IndexOfPair(rows, issuerName, userId).value;
      IndexOfIdUnique(rows, k);
      assert r == rows[k := d.(issuerNonce := issuerNonce, issuerAccessToken := issuerAccessToken)];
    case Err(_) =>
      assert r == rows + [CredentialRequestData(freshId, issuerName, userId, issuerNonce, issuerAccessToken)];
  }

  /** After saving, the pair's row holds the new nonce and token, under the
      id it had before or, when it is new, under the fresh id. */
  lemma {:induction false} LookupAfterUpsert(rows: Table, issuerName: string, issuerNonce: string,
                                             issuerAccessToken: string, userId: string, freshId: Uuid)
    requires ValidTable(rows) && !IdInUse(rows, freshId)
    ensures var id := if Lookup(rows, issuerName, userId).Ok? then Lookup(rows, issuerName, userId).value.id else freshId;
      Lookup(Upsert(rows, issuerName, issuerNonce, issuerAccessToken, userId, freshId), issuerName, userId)
        == Ok(CredentialRequestData(id, issuerName, userId, issuerNonce, issuerAccessToken))
  {
    var r := Upsert(rows, issuerName, issuerNonce, issuerAccessToken, userId, freshId);
    UpsertValid(rows, issuerName, issuerNonce, issuerAccessToken, userId, freshId);
    match Lookup(rows, issuerName, userId)
    case Ok(d) =>
      var k := IndexOfPair(rows, issuerName, userId).value;
      IndexOfIdUnique(rows, k);
      assert r[k] == d.(issuerNonce := issuerNonce, issuerAccessToken := issuerAccessToken);
      IndexOfPairUnique(r, k);
    case Err(_) =>
      assert r[|rows|] == CredentialRequestData(freshId, issuerName, userId, issuerNonce, issuerAccessToken);
      IndexOfPairUnique(r, |rows|);
  }

  /** Saving one pair leaves the row of every other pair as it was. */
  lemma {:induction false} UpsertFrame(rows: Table, issuerName: string, issuerNonce: string,
                                       issuerAccessToken: string, userId: string, freshId: Uuid,
                                       otherIssuer: string, otherUser: string)
    requires ValidTable(rows) && !IdInUse(rows, freshId)
    requires otherIssuer != issuerName || otherUser != userId
    ensures Lookup(Upsert(rows, issuerName, issuerNonce, issuerAccessToken, userId, freshId), otherIssuer, otherUser)
         == Lookup(rows, otherIssuer, otherUser)
  {
    var r := Upsert(rows, issuerName, issuerNonce, issuerAccessToken, userId, freshId);
    UpsertValid(rows, issuerName, issuerNonce, issuerAccessToken, userId, freshId);
    var k :| 0 <= k <= |rows| && (forall i :: 0 <= i < |rows| && i != k ==> r[i] == rows[i]) && k < |r|
             && IsFor(r[k], issuerName, userId) && |r| <= |rows| + 1
             && (k == |rows| || IsFor(rows[k], issuerName, userId)) by {
      match Lookup(rows, issuerName, userId)
      case Ok(d) =>
        var k := IndexOfPair(rows, issuerName, userId).value;
        IndexOfIdUnique(rows, k);
      case Err(_) =>
    }
    match Lookup(rows, otherIssuer, otherUser)
    case Ok(o) =>
      var j := IndexOfPair(rows, otherIssuer, otherUser).value;
      assert j != k;
      assert r[j] == rows[j];
      IndexOfPairUnique(r, j);
      IndexOfPairUnique(rows, j);
    case Err(_) =>
      forall i | 0 <= i < |r| ensures !IsFor(r[i], otherIssuer, otherUser) {
        if i != k {
          assert r[i] == rows[i];
        }
      }
  }

  /** A row is created only when the pair has none: saving never adds a
      second row for a pair. */
  lemma UpsertSize(rows: Table, issuerName: string, issuerNonce: string,
                   issuerAccessToken: string, userId: string, freshId: Uuid)
    requires ValidTable(rows) && !IdInUse(rows, freshId)
    ensures |Upsert(rows, issuerName, issuerNonce, issuerAccessToken, userId, freshId)|
         == |rows| + (if Lookup(rows, issuerName, userId).Ok? then 0 else 1)
  {
    if Lookup(rows, issuerName, userId).Ok? {
      var k := IndexOfPair(rows, issuerName, userId).value;
      IndexOfIdUnique(rows, k);
    }
  }

  /** Saving twice for a pair is saving the second values under the identity
      the first save gave the row: the last write wins. */
  lemma {:induction false} UpsertTwice(rows: Table, issuerName: string, userId: string,
                                       nonce1: string, token1: string, id1: Uuid,
                                       nonce2: string, token2: string, id2: Uuid)
    requires ValidTable(rows) && !IdInUse(rows, id1)
    ensures Upsert(Upsert(rows, issuerName, nonce1, token1, userId, id1), issuerName, nonce2, token2, userId, id2)
         == Upsert(rows, issuerName, nonce2, token2, userId, id1)
  {
    var r1 := Upsert(rows, issuerName, nonce1, token1, userId, id1);
    UpsertValid(rows, issuerName, nonce1, token1, userId, id1);
    LookupAfterUpsert(rows, issuerName, nonce1, token1, userId, id1);
    var d := Lookup(r1, issuerName, userId).value;
    var k := IndexOfPair(r1, issuerName, userId).value;
    IndexOfIdUnique(r1, k);
    var updated := d.(issuerNonce := nonce2, issuerAccessToken := token2);
    assert Upsert(r1, issuerName, nonce2, token2, userId, id2) == r1[k := updated];
    match Lookup(rows, issuerName, userId)
    case Ok(d0) =>
      var k0 := IndexOfPair(rows, issuerName, userId).value;
      IndexOfIdUnique(rows, k0);
      assert r1 == rows[k0 := d0.(issuerNonce := nonce1, issuerAccessToken := token1)];
      IndexOfPairUnique(r1, k0);
      assert k == k0;
    case Err(_) =>
      assert r1 == rows + [CredentialRequestData(id1, issuerName, userId, nonce1, token1)];
      IndexOfPairUnique(r1, |rows|);
      assert k == |rows|;
  }

  lemma {:induction false} RotateNonceAt(rows: Table, issuerName: string, userId: string, freshNonce: string, i: nat)
    requires i < |rows|
    ensures RotateNonce(rows, issuerName, userId, freshNonce)[i]
         == if IsFor(rows[i], issuerName, userId) then rows[i].(issuerNonce := freshNonce) else rows[i]
  {
    if i > 0 {
      RotateNonceAt(rows[1..], issuerName, userId, freshNonce, i - 1);
    }
  }

  /** Renewing the nonce changes the nonce of the pair's row and nothing
      else: its id and access token stay, other pairs' rows stay, and the
      table stays valid. Without a row for the pair nothing changes. */
  lemma RotateNonceEffect(rows: Table, issuerName: string, userId: string, freshNonce: string)
    requires ValidTable(rows)
    ensures var r := RotateNonce(rows, issuerName, userId, freshNonce);
      && ValidTable(r)
      && Lookup(r, issuerName, userId)
         == (var before := Lookup(rows, issuerName, userId);
             if before.Ok? then Ok(before.value.(issuerNonce := freshNonce)) else before)
      && (Lookup(rows, issuerName, userId).Err? ==> r == rows)
  {
    var r := RotateNonce(rows, issuerName, userId, freshNonce);
    forall i | 0 <= i < |rows|
      ensures r[i] == if IsFor(rows[i], issuerName, userId) then rows[i].(issuerNonce := freshNonce) else rows[i]
    {
      RotateNonceAt(rows, issuerName, userId, freshNonce, i);
    }
    match Lookup(rows, issuerName, userId)
    case Ok(d) =>
      var k := IndexOfPair(rows, issuerName, userId).value;
      IndexOfPairUnique(r, k);
    case Err(_) =>
      assert r == rows;
  }

  /** Renewing one pair's nonce leaves every other pair's row as it was. */
  lemma RotateNonceFrame(rows: Table, issuerName: string, userId: string, freshNonce: string,
                         otherIssuer: string, otherUser: string)
    requires otherIssuer != issuerName || otherUser != userId
    ensures Lookup(RotateNonce(rows, issuerName, userId, freshNonce), otherIssuer, otherUser)
         == Lookup(rows, otherIssuer, otherUser)
  {
    var r := RotateNonce(rows, issuerName, userId, freshNonce);
    forall i | 0 <= i < |rows|
      ensures IsFor(r[i], otherIssuer, otherUser) <==> IsFor(rows[i], otherIssuer, otherUser)
      ensures IsFor(rows[i], otherIssuer, otherUser) ==> r[i] == rows[i]
    {
      RotateNonceAt(rows, issuerName, userId, freshNonce, i);
    }
    match IndexOfPair(rows, otherIssuer, otherUser)
    case Some(j) =>
      assert IndexOfPair(r, otherIssuer, otherUser) == Some(j);
    case None =>
      assert IndexOfPair(r, otherIssuer, otherUser) == None;
  }

  // ---------------------------------------------------------------------
  // The service

  class CredentialRequestDataService {
    /** The rows of `CredentialRequestDataRepository`. */
    var rows: Table

    constructor ()
      ensures rows == []
    {
      rows := [];
    }

    predicate Valid()
      reads this
    {
      ValidTable(rows)
    }

    method GetCredentialRequestDataByIssuerName(issuerName: string, userId: string)
      returns (r: Result<CredentialRequestData>)
      ensures r.Ok? <==> exists i :: 0 <= i < |rows| && IsFor(rows[i], issuerName, userId)
      ensures r.Ok? ==> r.value in rows && IsFor(r.value, issuerName, userId)
      ensures r.Err? ==> r.error == CredentialRequestDataNotFound("The " + issuerName + " was not found")
    {
      r := Lookup(rows, issuerName, userId);
    }

    /** `saveCredentialRequestData`; `freshId` stands for `UUID.randomUUID()`. */
    method SaveCredentialRequestData(issuerName: string, issuerNonce: string, issuerAccessToken: string,
                                     userId: string, freshId: Uuid)
      requires Valid() && !IdInUse(rows, freshId)
      modifies this
      ensures Valid()
      ensures rows == Upsert(old(rows), issuerName, issuerNonce, issuerAccessToken, userId, freshId)
    {
      UpsertValid(rows, issuerName, issuerNonce, issuerAccessToken, userId, freshId);
      var requestData := GetCredentialRequestDataByIssuerName(issuerName, userId);
      match requestData
      case Ok(d) =>
        var updated := d.(issuerNonce := issuerNonce, issuerAccessToken := issuerAccessToken);
        rows := SaveRow(rows, updated);
      case Err(_) =>
        var created := CredentialRequestData(freshId, issuerName, userId, issuerNonce, issuerAccessToken);
        rows := SaveRow(rows, created);
    }

    method SaveNewIssuerNonceByIssuerName(issuerName: string, freshNonce: string, userId: string)
      requires Valid()
      modifies this
      ensures Valid()
      ensures rows == RotateNonce(old(rows), issuerName, userId, freshNonce)
    {
      RotateNonceEffect(rows, issuerName, userId, freshNonce);
      rows := RotateNonce(rows, issuerName, userId, freshNonce);
    }
  }
}
