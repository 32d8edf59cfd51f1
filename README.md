# QuantumTrust QR service, modelled in Dafny

The service registers users in a SQLite `users` table and gives each one a
QR code carrying an encrypted token. The token's plaintext is
`email|device_id|timestamp|session_id`. Encryption is a Fernet token wrapped
once more in URL-safe base64 (section 5 of RFC 4648). Scanning a token
decrypts it, takes the first `|`-separated field as the email and looks the
user up. This project models that core and proves its properties.

- `common.dfy` (`Common`): octets, `Option`, `Result`.
- `base64url.dfy` (`Base64Url`): the RFC 4648 section 5 codec, with padding.
  There are two decoders, both defined by `DecodeWith`. `DecodeAsWritten`
  is Python's `urlsafe_b64decode` on well-formed input. `Decode` is the
  canonical decoder of section 3.5 of RFC 4648 (see Findings).
- `payload.dfy` (`Payload`): the payload f-string, Python's `str.split`
  with a one-character separator, and the session id `os.urandom(6).hex()`.
- `token.dfy` (`Token`): `pqc_encrypt` and `pqc_decrypt`.
  `PqcDecryptWith` takes the decoder as a flag: `PqcDecryptAsWritten` is
  the code's behaviour and `PqcDecrypt` the corrected one. Fernet is an
  abstract pair of functions. `Sound(f)` is the hypothesis that decryption
  under the same key inverts encryption, that ciphertexts are not empty,
  and that the empty ciphertext is refused.
- `store.dfy` (`Store`): the `users` table. It is modelled as its rows in
  rowid order plus the AUTOINCREMENT counter, not as a map from email to
  row. With this shape the UNIQUE email constraint is an invariant to
  prove, and the listing order of `fetch_all_users` is defined. The
  `UsersDb` class is the database file, which the application changes in
  place.
- `app.dfy` (`App`): the handlers `add_user_and_generate_qr`,
  `api_add_user`, `scan`, `show_qr`, `get_qr` and `dev_login`. `Scan` and
  `ShowQr` take a `canonical` flag. With false they decrypt as the code
  does; with true they use the strict decoder, the corrected behaviour.

Request inputs are `Option<string>`, with None for an absent field. The
random octets, the clock reading, the Fernet key and entropy, and the QR
renderer are parameters.

## Model

| member | source | states |
|---|---|---|
| Base64Url.OctetsOfSextets | app.py:33 | Splitting three octets into four sextets and joining them back loses nothing. |
| Base64Url.SextetsOfOctets | app.py:36 | Joining four sextets into three octets and splitting them back loses nothing. |
| Base64Url.EncodedLengthFormula | app.py:33 | The encoding of n octets has 4 * ceil(n / 3) characters, a multiple of 4. |
| Base64Url.GroupShape | app.py:33 | A quantum has two symbols, then a symbol or `=` for each further octet present or missing. |
| Base64Url.EncodeAlphabet | app.py:33 | The encoder writes only URL-safe alphabet symbols and `=`. |
| Base64Url.DecodeGroup | app.py:36 | An accepted quantum yields one to three octets, and three when it has no padding. |
| Base64Url.DecodeWith | app.py:36 | Whatever is accepted has exactly the length of the encoding of its result. |
| Base64Url.Encode | app.py:33 | The encoding of n octets has `EncodedLength(n)` characters: four per started group of three. |
| Base64Url.DecodeAsWritten | app.py:36 | Python's decoder gives the canonical decoder's result on every string the canonical decoder accepts. |
| Base64Url.Decode | app.py:36 | The canonical decoder accepts a string only if it is the encoding of the result. |
| Base64Url.GroupRoundTrip | app.py:33-36 | Each decoder gives back the one to three octets a quantum encodes. |
| Base64Url.DecodeEncode | app.py:33-36 | Every octet string survives encode then decode, with either decoder. |
| Base64Url.GroupCanonical | app.py:36 | A quantum the canonical decoder accepts is the encoding of its result. |
| Base64Url.EncodeDecode | app.py:36 | The canonical decoder accepts only what the encoder produces: encode after decode is the identity. |
| Base64Url.FlipChangesOneSymbol | app.py:36 | Setting a discarded bit changes only the last symbol before the padding. |
| Base64Url.FlipOneOctetDecodes | app.py:36 | The decoder as written accepts such a one-octet quantum as the same octet; the canonical one refuses it. |
| Base64Url.FlipTwoOctetsDecodes | app.py:36 | The same holds for a quantum of two octets. |
| Base64Url.TamperedDiffersOnce | app.py:36 | The altered encoding differs from the true one in exactly one character. |
| Base64Url.TamperedDecodes | app.py:36 | The decoder as written maps the altered encoding to the original octets; the canonical one refuses it. |
| Base64Url.AsWrittenAcceptsTampered | app.py:36 | When the length is not a multiple of 3, a second string one character away decodes to the same octets as written, and is refused canonically. |
| Base64Url.AsWrittenAcceptsQR | app.py:36 | The smallest case: "QQ==" encodes the octet 0x41; "QR==" decodes to it as written and is refused canonically. |
| Payload.Build | app.py:61 | The payload is the email, device id, timestamp and session id as an f-string shows them, with `\|` between each two. |
| Payload.Split | app.py:181 | `split("\|")` gives at least one field, and no field holds the separator. |
| Payload.JoinSplit | app.py:181 | Joining the fields of a split with the separator gives back the string. |
| Payload.SplitJoin | app.py:61 | Splitting joined fields gives them back if and only if none holds the separator. |
| Payload.SplitHead | app.py:181 | A separator-free prefix followed by a separator or the end becomes the first field. |
| Payload.FirstOfJoin | app.py:181 | The first field of a join is its first part iff that part is separator-free, and otherwise a strict prefix of it. |
| Payload.SplitFirst | app.py:181 | The first field of a split is a prefix of the string, followed by the separator or the end. |
| Payload.FirstField | app.py:217 | `split("\|")[0]` is the part of the string before its first `\|`, or all of it when there is none. |
| Payload.PrefixBeforeSeparator | app.py:217 | If a prefix holds the separator, the first field stops inside it. |
| Payload.FirstFieldOfPayload | app.py:61 | `split("\|")[0]` of the payload is the email, whatever the other three fields hold, iff the email has no `\|`. |
| Payload.FieldsOfPayload | app.py:61 | All four payload fields come back iff none holds `\|`. |
| Payload.HexPair | app.py:59 | One octet shows as two lowercase hex digits. |
| Payload.Hex | app.py:59 | `bytes.hex()` gives two lowercase hex digits per octet. |
| Payload.HexPairInjective | app.py:59 | An octet is determined by its two hex digits. |
| Payload.HexInjective | app.py:59 | Different random octets give different hex strings. |
| Payload.SessionId | app.py:59 | The session id is 12 lowercase hex characters and holds no `\|`. |
| Token.PqcEncrypt | app.py:31-33 | A token holds only URL-safe symbols and `=`, and its length is a multiple of 4. |
| Token.PqcDecryptWith | app.py:35-37 | With the strict decoder only exact encodings of a ciphertext decrypt; on such encodings both decoders give the cipher the same ciphertext. |
| Token.PqcDecryptAsWritten | app.py:35-37 | `pqc_decrypt` as written gives the strict version's text wherever the strict version decrypts. |
| Token.PqcDecrypt | app.py:35-37 | With the strict decoder, a token decrypts only if it is exactly the encoding of the ciphertext it carries. |
| Token.PqcRoundTrip | app.py:31-37 | Under a sound cipher, decryption with the same key gives back the encrypted text, with either decoder. |
| Token.EmptyToken | app.py:31-37 | A token is never empty, and the empty string never decrypts, with either decoder. |
| Token.AsWrittenAcceptsAlteredToken | app.py:35-37 | If the ciphertext length is not a multiple of 3, a second token of the same length decrypts to the same text as written; the canonical decryption refuses it. |
| Store.Without | app.py:79 | REPLACE keeps exactly the rows with a different email. |
| Store.Find | app.py:101 | A found row is in the table and has the email; None means no row has it. |
| Store.InsertOrReplace | app.py:78-81 | On an existing table: a full rowid space, then a NULL name, then a NULL email fail, in that order. Success draws the next rowid and leaves exactly the old rows with another email plus the new row. |
| Store.Insert | app.py:78-81 | The upsert fails exactly on a missing table, an exhausted rowid, a NULL name, or a NULL email, and reports which. |
| Store.CountUnique | app.py:48 | With unique emails, at most one row has an email, and exactly one iff it is found. |
| Store.TailKeepsUnique | app.py:48 | The rows after the first keep unique emails and do not repeat the first email. |
| Store.TailKeepsOrder | app.py:46 | The rows after the first keep increasing ids, all larger than the first. |
| Store.ConsKeepsOrder | app.py:46 | A row with a smaller id and a new email can be put in front. |
| Store.SnocKeepsOrder | app.py:46 | A row with a larger id and a new email can be put at the end. |
| Store.WithoutKeepsOrder | app.py:79 | Deleting the clashing row keeps rowid order and unique emails. |
| Store.InsertKeepsWellFormed | app.py:44-53 | A successful upsert keeps ids increasing, within the counter, and emails unique. |
| Store.CountWithout | app.py:79 | After the delete, no row has the email. |
| Store.CountAppend | app.py:79 | Counting rows with an email adds up over concatenation. |
| Store.FindAfter | app.py:79 | The appended row is the one found for its email. |
| Store.WithoutAppend | app.py:79 | Deleting the appended row's email gives back the other rows. |
| Store.InsertReplacesRow | app.py:78-81 | After an upsert exactly one row has the email: the new values, with an id above every earlier id. Rows with other emails stay as they were, in order. |
| Store.WithoutDropsCount | app.py:79 | The delete removes as many rows as have the email. |
| Store.ReRegistrationOverwrites | app.py:78-81 | Registering an email again overwrites the row and does not grow the table. |
| Store.GetUserByEmail | app.py:98-104 | A result is returned iff a row has the email, and it is that row's (name, email, device_id, last_login); a missing table is an error. |
| Store.FetchAllUsers | app.py:89-95 | A missing table is an error. Otherwise the listing has one entry per row, in table order, each the row without its image. |
| Store.Summaries | app.py:92 | The listing has one entry per row, the row without its image. |
| Store.FetchAllListsEachRowOnce | app.py:89-95 | `fetch_all_users` lists every row exactly once, in increasing id order, and nothing else. |
| Store.SelectQrCode | app.py:126-127 | The image is returned iff a row has the email, and it is that row's image. |
| Store.UsersDb.constructor | app.py:40 | A new database file has no `users` table. |
| Store.UsersDb.InitDb | app.py:41-55 | `CREATE TABLE IF NOT EXISTS` keeps an existing table and otherwise creates an empty one. |
| Store.UsersDb.InsertOrReplaceUser | app.py:76-83 | The table becomes the upserted one on success and is unchanged on failure; it stays well-formed. |
| App.AddUserAndGenerateQr | app.py:58-86 | The token encrypts `email\|device_id\|timestamp\|session_id`. A token too long for a QR code fails before any write. Otherwise the user row gets the timestamp as last login and the rendered token as image. The token is returned iff the write succeeds, and a failed write changes nothing. |
| App.ApiAddUser | app.py:137-147 | Missing or empty name, email or device id gives 400 and leaves the table alone. Otherwise the reply follows `add_user_and_generate_qr`: a token too long for a QR code is a 500 that writes nothing; else the user is upserted, and the reply is the token with the upserted table, or the write error with the table unchanged. A failure can only be a QR overflow, a missing table or a full rowid space. |
| App.Scan | app.py:211-230 | No data iff the argument is missing or empty. Otherwise: invalid QR iff the token does not decrypt or the table is missing; user not found iff no row has the first payload field as email; the details shown belong to a stored row whose email is that field. |
| App.ShowQr | app.py:175-184 | A missing argument or a token that does not decrypt shows "". Otherwise the shown email is the decrypted text up to its first `\|`, and never holds `\|`. |
| App.GetQr | app.py:119-133 | 400 iff the email is missing or empty, and 500 iff the table is missing. Otherwise the stored image of that email is served when it is not empty, and 404 is returned when it is empty or there is no such user. |
| App.DevLogin | app.py:109-116 | A POST redirects to the dashboard iff the password is "admin123", and only then is the developer flag set. A GET shows the form. |
| App.ScanAfterRegistration | app.py:211-230 | Scanning a fresh registration's token shows that user's details iff the email has no `\|`, with either decoder. |
| App.ShowQrAfterRegistration | app.py:175-184 | `show_qr` on a registration's token shows the registered email iff it has no `\|`. |
| App.GetQrAfterRegistration | app.py:119-133 | After a registration, `get_qr` serves the stored image, and gives 404 only if that image is empty. |
| App.ScanAcceptsAlteredToken | app.py:211-230 | If the ciphertext of a registration's payload has a length that is not a multiple of 3, a token other than the issued one shows the same user's details as the code decrypts it; with the strict decoder it is an invalid QR. |
| App.EmptyDataShowsNoEmail | app.py:175-184 | `show_qr` with an empty `data` argument shows no email. |

## Left out

- Fernet internals: AES-CBC, HMAC, the embedded timestamp and TTL, and key generation at app.py:27. The cipher is a pair of functions under the `Sound` hypothesis. The key is a parameter, regenerated per process and never persisted.
- UTF-8 `encode()`/`decode()` around the cipher: strings are sequences of characters, and a failed UTF-8 decode counts as a failed decryption.
- QR rendering with `qrcode`/PIL, and QR reading with OpenCV in `upload_qr`, along with that route's file saving and `secure_filename`. The renderer is a function parameter that may refuse a token, as `qr.make(fit=True)` does when the data exceeds QR version 40; which lengths it refuses is not modelled. Image decoding is foreign code.
- `os.urandom(6)` and `datetime.now().astimezone().isoformat()`: both are inputs, and the timestamp's format is not modelled.
- Flask routing, templates, redirects, JSON encoding, the `print` at app.py:85, and the `home` route. `scan` returns the user row instead of the HTML it formats.
- `register` route: it passes the form fields, possibly None, to `add_user_and_generate_qr` without a check and redirects to `show_qr`. `App.AddUserAndGenerateQr` takes the same optional inputs, but the route has no member of its own.
- `api_users` and `dashboard`: they only serve `fetch_all_users`, which `Store.FetchAllUsers` models. Neither checks the developer flag that `dev_login` sets, so there is no access gate to model.
- `api_add_user` with a body that is not a JSON object raises before the check. JSON values that are not strings are not modelled either: inputs are optional strings.
- Python's `urlsafe_b64decode` leniencies beyond well-formed input: it drops characters outside the alphabet, accepts `+` and `/`, and ignores data after padding. The decoder as written models only quanta of alphabet symbols with correct padding. Any other input is refused, where Python might accept it.
- SQLite connections, commits, durability and concurrency. NULL `last_login` and `qr_code` values are never written by the application, so those row fields are not optional.
- Store.FetchAllUsers: the SQL statement has no ORDER BY. Rowid order is what a full scan of a rowid table returns, not something SQL promises.

## Findings

| source | as written | input that shows it | evidently intended | confidence | as-written member | corrected member |
|---|---|---|---|---|---|---|
| app.py:36 | `urlsafe_b64decode` ignores the low bits that padding leaves unused in the last quantum. So a token whose Fernet ciphertext length is not a multiple of 3 has a second string form, and `pqc_decrypt` accepts both. | `"QQ=="` and `"QR=="` both decode to the octet `0x41`. For a real token, raise the last symbol before `=` by one; `App.ScanAcceptsAlteredToken` shows `scan` accepting it. | Each encrypted payload has exactly one accepted token string, namely the one `pqc_encrypt` issued. | medium; not executed | Base64Url.AsWrittenAcceptsTampered | Base64Url.Decode |
