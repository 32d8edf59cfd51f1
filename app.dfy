/**
 * The request handlers of the QR service: registration
 * (`add_user_and_generate_qr`, `api_add_user`), the decisions of `scan`,
 * `show_qr` and `get_qr`, and the developer password check.
 *
 * Inputs the handlers read from the request are `Option<string>`: None
 * when the form field, query argument or JSON key is absent. The random
 * session octets, the clock reading, the Fernet entropy and the QR image
 * renderer are parameters.
 */
module App {
  import opened Common
  import Payload
  import Token
  import Store
  import Base64Url

  /** Python truthiness of an optional string: None and "" are false. */
  predicate Falsy(o: Option<string>) {
    o.None? || o.value == ""
  }

  /** Why a registration fails: the token does not fit in a QR code
      (`qr.make(fit=True)` raises before anything is written), or the
      upsert fails. */
  datatype AddError = QrOverflow | WriteFailed(error: Store.DbError)

  /** `add_user_and_generate_qr`: build the payload from the session id and
      the timestamp, encrypt it, render the token as a QR image and upsert
      the user with it. `render` answers None when the token is too long
      for any QR version; then nothing is written. The token is returned
      when the write succeeds; a failed write leaves the table as it was. */
  method AddUserAndGenerateQr(db: Store.UsersDb, f: Token.Fernet, key: Token.Key, entropy: Token.Entropy,
                              random: Bytes, timestamp: string, render: string -> Option<Bytes>,
                              name: Option<string>, email: Option<string>, deviceId: Option<string>)
    returns (r: Result<string, AddError>)
    requires |random| == 6 && db.Valid()
    modifies db
    ensures db.Valid()
    ensures var token := Token.PqcEncrypt(f, key, entropy,
                                          Payload.Build(email, deviceId, timestamp, Payload.SessionId(random)));
      match render(token)
      case None => r == Err(QrOverflow) && db.State() == old(db.State())
      case Some(png) =>
        match Store.Insert(old(db.State()), name, email, deviceId, timestamp, png)
        case Ok(t) => r == Ok(token) && db.State() == Some(t)
        case Err(e) => r == Err(WriteFailed(e)) && db.State() == old(db.State())
  {
    var sessionId := Payload.SessionId(random);
    var payload := Payload.Build(email, deviceId, timestamp, sessionId);
    var token := Token.PqcEncrypt(f, key, entropy, payload);
    var png := render(token);
    if png.None? {
      return Err(QrOverflow);
    }
    var err := db.InsertOrReplaceUser(name, email, deviceId, timestamp, png.value);
    if err.Some? {
      r := Err(WriteFailed(err.value));
    } else {
      r := Ok(token);
    }
  }

  /** The replies of `api_add_user`; an exception in the registration is
      Flask's 500. */
  datatype AddReply = MissingFields | UserAdded(token: string) | AddFailed(error: AddError)

  function AddStatus(r: AddReply): int {
    match r
    case MissingFields => 400
    case UserAdded(_) => 200
    case AddFailed(_) => 500
  }

  /** The required-field check of `api_add_user`. */
  predicate MissingRequired(name: Option<string>, email: Option<string>, deviceId: Option<string>) {
    Falsy(name) || Falsy(email) || Falsy(deviceId)
  }

  /** `api_add_user`: a missing or empty name, email or device id is a 400
      that leaves the table untouched; otherwise the user is registered.
      Since name and email are present, the registration can fail only on
      a token too long for a QR code, a missing table or an exhausted
      rowid space. */
  method ApiAddUser(db: Store.UsersDb, f: Token.Fernet, key: Token.Key, entropy: Token.Entropy,
                    random: Bytes, timestamp: string, render: string -> Option<Bytes>,
                    name: Option<string>, email: Option<string>, deviceId: Option<string>)
    returns (reply: AddReply)
    requires |random| == 6 && db.Valid()
    modifies db
    ensures db.Valid()
    ensures AddStatus(reply) == 400 <==> MissingRequired(name, email, deviceId)
    ensures MissingRequired(name, email, deviceId) ==> db.State() == old(db.State())
    ensures reply.AddFailed? ==>
      (db.State() == old(db.State())
       && reply.error in {QrOverflow, WriteFailed(Store.NoSuchTable), WriteFailed(Store.Full)})
    ensures reply.UserAdded? ==>
      (db.State().Some? && Store.Find(db.State().value.rows, email.value).Some?)
    ensures !MissingRequired(name, email, deviceId) ==>
      var token := Token.PqcEncrypt(f, key, entropy,
                                    Payload.Build(email, deviceId, timestamp, Payload.SessionId(random)));
      match render(token)
      case None => reply == AddFailed(QrOverflow) && db.State() == old(db.State())
      case Some(png) =>
        match Store.Insert(old(db.State()), name, email, deviceId, timestamp, png)
        case Ok(t) => reply == UserAdded(token) && db.State() == Some(t)
        case Err(e) => reply == AddFailed(WriteFailed(e)) && db.State() == old(db.State())
  {
    if MissingRequired(name, email, deviceId) {
      return MissingFields;
    }
    var r := AddUserAndGenerateQr(db, f, key, entropy, random, timestamp, render, name, email, deviceId);
    match r
    case Ok(token) =>
      reply := UserAdded(token);
      var png := render(token).value;
      ghost var t := db.State().value;
      assert t == Store.InsertOrReplace(old(db.State()).value, name, email, deviceId, timestamp, png).value;
      Store.InsertReplacesRow(old(db.State()).value, name.value, email.value, deviceId, timestamp, png);
    case Err(e) =>
      reply := AddFailed(e);
  }

  /** The four answers of `scan`. */
  datatype ScanReply = NoDataProvided | InvalidQr | UserDetails(user: Store.UserInfo) | UserNotFound

  /** `scan`: no data; a token that does not decrypt or a lookup that
      raises; the user named by the first payload field; or nobody. The
      details shown are always those of a stored row whose email is that
      first field. With `canonical` false the token is decrypted as the
      code does it; with `canonical` true the strict decoder is used. */
  function Scan(f: Token.Fernet, key: Token.Key, canonical: bool,
                db: Option<Store.Table>, data: Option<string>): (r: ScanReply)
    ensures r == NoDataProvided <==> Falsy(data)
    ensures !Falsy(data) ==>
      var d := Token.PqcDecryptWith(f, key, data.value, canonical);
      (r == InvalidQr <==> d.None? || db.None?)
      && (r == UserNotFound <==>
            d.Some? && db.Some? && Store.Find(db.value.rows, Payload.FirstField(d.value)).None?)
      && (r.UserDetails? ==>
            d.Some? && db.Some? && r.user.email == Payload.FirstField(d.value)
            && exists x :: x in db.value.rows && Store.InfoOf(x) == r.user)
  {
    if Falsy(data) then NoDataProvided
    else
      match Token.PqcDecryptWith(f, key, data.value, canonical)
      case None => InvalidQr
      case Some(decoded) =>
        match Store.GetUserByEmail(db, Payload.FirstField(decoded))
        case Err(_) => InvalidQr
        case Ok(None) => UserNotFound
        case Ok(Some(user)) => UserDetails(user)
  }

  /** `show_qr`: the email read back from the token, or "" when there is no
      token or it does not decrypt. What it shows is the decrypted text up
      to its first `|`. `canonical` chooses the decoder as for `Scan`. */
  function ShowQr(f: Token.Fernet, key: Token.Key, canonical: bool, data: Option<string>): (email: string)
    ensures data.None? ==> email == ""
    ensures Payload.Delimiter !in email
    ensures data.Some? ==>
      match Token.PqcDecryptWith(f, key, data.value, canonical)
      case None => email == ""
      case Some(d) => email <= d && (email == d || d[|email|] == Payload.Delimiter)
  {
    match data
    case None => ""
    case Some(token) =>
      match Token.PqcDecryptWith(f, key, token, canonical)
      case None => ""
      case Some(decoded) => Payload.FirstField(decoded)
  }

  /** The replies of `get_qr`. */
  datatype QrReply = QrImage(png: Bytes) | EmailRequired | QrNotFound | QueryFailed(error: Store.DbError)

  function QrStatus(r: QrReply): int {
    match r
    case QrImage(_) => 200
    case EmailRequired => 400
    case QrNotFound => 404
    case QueryFailed(_) => 500
  }

  /** `get_qr`: 400 without an email; the stored image when the user exists
      and the image is not empty; 404 otherwise; the query raising on a
      missing table is a server error. */
  function GetQr(db: Option<Store.Table>, email: Option<string>): (r: QrReply)
    ensures QrStatus(r) == 400 <==> Falsy(email)
    ensures QrStatus(r) == 500 <==> !Falsy(email) && db.None?
    ensures r.QrImage? ==>
      (|r.png| > 0 && db.Some? && exists x :: x in db.value.rows && x.email == email.value && x.qrCode == r.png)
    ensures !Falsy(email) && db.Some? ==>
      match Store.Find(db.value.rows, email.value)
      case Some(x) => r == if |x.qrCode| > 0 then QrImage(x.qrCode) else QrNotFound
      case None => r == QrNotFound
  {
    if Falsy(email) then EmailRequired
    else
      match Store.SelectQrCode(db, email.value)
      case Err(e) => QueryFailed(e)
      case Ok(None) => QrNotFound
      case Ok(Some(png)) => if |png| > 0 then QrImage(png) else QrNotFound
  }

  /** The password `dev_login` compares against. */
  const AdminPassword: string := "admin123"

  datatype LoginReply = LoginForm | RedirectToDashboard | InvalidPassword

  /** `dev_login`: a GET shows the form; a POST with the admin password
      marks the session as a developer's and redirects, any other POST is
      refused. Returns the reply and the session's developer flag. */
  function DevLogin(isPost: bool, password: Option<string>, developer: bool): (r: (LoginReply, bool))
    ensures r.0 == RedirectToDashboard <==> isPost && password == Some(AdminPassword)
    ensures r.0 == LoginForm <==> !isPost
    ensures r.1 <==> developer || r.0 == RedirectToDashboard
  {
    if !isPost then (LoginForm, developer)
    else if password == Some(AdminPassword) then (RedirectToDashboard, true)
    else (InvalidPassword, developer)
  }

  /** Scanning the token of a fresh registration shows that user's details
      exactly when the email holds no `|`, whatever the device id,
      timestamp and session id. */
  lemma ScanAfterRegistration(f: Token.Fernet, key: Token.Key, canonical: bool,
                              entropy: Token.Entropy, t: Store.Table,
                              name: string, email: string, deviceId: Option<string>,
                              timestamp: string, sessionId: string, png: Bytes)
    requires Token.Sound(f) && Store.WellFormed(t)
    requires Store.InsertOrReplace(t, Some(name), Some(email), deviceId, timestamp, png).Ok?
    ensures var token := Token.PqcEncrypt(f, key, entropy, Payload.Build(Some(email), deviceId, timestamp, sessionId));
      var t' := Store.InsertOrReplace(t, Some(name), Some(email), deviceId, timestamp, png).value;
      (Scan(f, key, canonical, Some(t'), Some(token)) == UserDetails(Store.UserInfo(name, email, deviceId, timestamp)))
        <==> Payload.Delimiter !in email
  {
    var payload := Payload.Build(Some(email), deviceId, timestamp, sessionId);
    var token := Token.PqcEncrypt(f, key, entropy, payload);
    var t' := Store.InsertOrReplace(t, Some(name), Some(email), deviceId, timestamp, png).value;
    Token.EmptyToken(f, key, entropy, payload);
    Token.PqcRoundTrip(f, key, entropy, payload);
    Payload.FirstFieldOfPayload(Some(email), deviceId, timestamp, sessionId);
    Store.InsertReplacesRow(t, name, email, deviceId, timestamp, png);
    var first := Payload.FirstField(payload);
    assert Scan(f, key, canonical, Some(t'), Some(token)) == match Store.GetUserByEmail(Some(t'), first)
      case Err(_) => InvalidQr
      case Ok(None) => UserNotFound
      case Ok(Some(user)) => UserDetails(user);
  }

  /** `show_qr` on the token of a registration shows the email that was
      registered exactly when it holds no `|`. */
  lemma ShowQrAfterRegistration(f: Token.Fernet, key: Token.Key, canonical: bool, entropy: Token.Entropy,
                                email: Option<string>, deviceId: Option<string>,
                                timestamp: string, sessionId: string)
    requires Token.Sound(f)
    ensures var token := Token.PqcEncrypt(f, key, entropy, Payload.Build(email, deviceId, timestamp, sessionId));
      ShowQr(f, key, canonical, Some(token)) == Payload.Show(email) <==> Payload.Delimiter !in Payload.Show(email)
  {
    var payload := Payload.Build(email, deviceId, timestamp, sessionId);
    Token.PqcRoundTrip(f, key, entropy, payload);
    Payload.FirstFieldOfPayload(email, deviceId, timestamp, sessionId);
  }

  /** After a registration `get_qr` with that email serves the image just
      stored, and a 404 only when that image is empty. */
  lemma GetQrAfterRegistration(t: Store.Table, name: string, email: string, deviceId: Option<string>,
                               timestamp: string, png: Bytes)
    requires Store.WellFormed(t) && email != ""
    requires Store.InsertOrReplace(t, Some(name), Some(email), deviceId, timestamp, png).Ok?
    ensures var t' := Store.InsertOrReplace(t, Some(name), Some(email), deviceId, timestamp, png).value;
      GetQr(Some(t'), Some(email)) == if |png| > 0 then QrImage(png) else QrNotFound
  {
    Store.InsertReplacesRow(t, name, email, deviceId, timestamp, png);
  }

  /** An empty `data` argument is not None, so `show_qr` tries to decrypt
      it; the decryption fails and no email is shown. */
  lemma EmptyDataShowsNoEmail(f: Token.Fernet, key: Token.Key, canonical: bool)
    requires Token.Sound(f)
    ensures ShowQr(f, key, canonical, Some("")) == ""
  {
    Token.EmptyToken(f, key, Token.Entropy([], 0), "");
  }

  /** The finding on `pqc_decrypt`, seen from `scan`: when the ciphertext
      of a registration's payload has a length that is not a multiple of 3,
      a second token, different from the one in the QR image, shows the
      same user's details as the code decrypts it; the strict decoder
      turns it away as an invalid QR. */
  lemma ScanAcceptsAlteredToken(f: Token.Fernet, key: Token.Key, entropy: Token.Entropy, t: Store.Table,
                                name: string, email: string, deviceId: Option<string>,
                                timestamp: string, sessionId: string, png: Bytes)
    requires Token.Sound(f) && Store.WellFormed(t) && Payload.Delimiter !in email
    requires Store.InsertOrReplace(t, Some(name), Some(email), deviceId, timestamp, png).Ok?
    requires |f.encrypt(key, entropy, Payload.Build(Some(email), deviceId, timestamp, sessionId))| % 3 != 0
    ensures var payload := Payload.Build(Some(email), deviceId, timestamp, sessionId);
      var altered := Base64Url.TamperedEncoding(f.encrypt(key, entropy, payload));
      var t' := Store.InsertOrReplace(t, Some(name), Some(email), deviceId, timestamp, png).value;
      altered != Token.PqcEncrypt(f, key, entropy, payload)
      && Scan(f, key, false, Some(t'), Some(altered)) == UserDetails(Store.UserInfo(name, email, deviceId, timestamp))
      && Scan(f, key, true, Some(t'), Some(altered)) == InvalidQr
  {
    var payload := Payload.Build(Some(email), deviceId, timestamp, sessionId);
    var token := Token.PqcEncrypt(f, key, entropy, payload);
    var altered := Base64Url.TamperedEncoding(f.encrypt(key, entropy, payload));
    var t' := Store.InsertOrReplace(t, Some(name), Some(email), deviceId, timestamp, png).value;
    Token.AsWrittenAcceptsAlteredToken(f, key, entropy, payload);
    Token.EmptyToken(f, key, entropy, payload);
    Token.PqcRoundTrip(f, key, entropy, payload);
    ScanAfterRegistration(f, key, false, entropy, t, name, email, deviceId, timestamp, sessionId, png);
    assert altered != "";
    assert Token.PqcDecryptWith(f, key, altered, false) == Token.PqcDecryptWith(f, key, token, false);
  }
}
