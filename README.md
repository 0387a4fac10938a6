# Tienda online: credentials, users and orders

A model of the logic of a small console shop backed by SQLite (`app.py`).
Users register with a name, an email and a password. The password is
stored as a PBKDF2-HMAC-SHA256 credential record
`pbkdf2_sha256$<iterations>$<salt_hex>$<key_hex>`. A registered user then
places an order for one product. The order is validated and then written
as one `pedidos` header and one `pedido_items` line in a single
transaction.

The modules follow the layers of the program:

- `Wrappers`: `Option` and `Result`.
- `Text`: the Python string operations the program applies:
  - `str.strip()`, with Python's whitespace set;
  - `str.lower()`, on ASCII letters;
  - `str.split("$")` and joining on `$`;
  - `int()`, on an optional sign followed by at most 4300 digits. It
    skips the surrounding whitespace of the `isspace` set except
    U+001C..U+001F, which `strip()` removes but `int()` refuses;
  - the decimal rendering of a count.
- `Hex`: `binascii.hexlify` and `unhexlify` (Base16, section 8 of RFC 4648).
  Encoding writes lower-case digits; decoding accepts either case.
- `Credentials`: `hash_password` and `verify_password`.
  - PBKDF2 (section 5.2 of RFC 8018) is a parameter `kdf`. The model only
    assumes it is a deterministic function of password, salt and a count
    from 1 to 2^31-1.
  - The random salt from `os.urandom(16)` is a parameter of 16 bytes.
- `Tables`:
  - the rows of the four tables;
  - the lookups `autenticar_usuario` and `obtener_producto_por_id` over a
    snapshot of the tables;
  - the checks `crear_pedido` makes before writing (`CheckOrder`);
  - the pairing of order headers with line items.
- `Shop`: the database as a class `Store`.
  - Its fields are the `usuarios`, `pedidos` and `pedido_items` tables, their
    `AUTOINCREMENT` counters, and the read-only `productos` table.
  - `Register` is `registrar_usuario`; `PlaceOrder` and `Persist` are
    `crear_pedido`.
  - The answers typed at `input()` and the timestamp are arguments.
  - A `Fault` argument says where the transaction breaks, if it does.
  - `Persist` takes a snapshot, inserts both rows, commits, or restores the
    snapshot on a failure.
  - `ExampleSession` runs one session over the seeded catalogue.

`Store.Valid()` is the invariant every method keeps:

- ids are positive, below their counter and increasing;
- emails are unique;
- the `CHECK` constraints (`total >= 0`, `cantidad > 0`, `subtotal >= 0`) hold;
- line `i` belongs to order `i` and carries its total (`Paired`).

From `Paired`, `PairedOrderHasOneLine` derives two facts: every order has
exactly one line, and its total is the sum of its lines' subtotals.

## Model

| member | source | states |
|---|---|---|
| Text.TrimStartSuffix | app.py:99-101 | the leading trim of a character set leaves a suffix starting outside the set, and all it dropped is in the set |
| Text.TrimEndPrefix | app.py:99-101 | the trailing trim of a character set leaves a prefix ending outside the set, and all it dropped is in the set |
| Text.TrimSlice | app.py:99-101 | trimming both ends leaves the slice between the leading and trailing runs of the set, with everything outside it in the set |
| Text.Strip | app.py:99-101 | `strip()` is never longer than its input, and a non-empty result neither starts nor ends with whitespace |
| Text.StripSlice | app.py:99-101 | `strip()` returns the slice between the leading and trailing whitespace runs: all outside it is whitespace, and a non-empty slice starts and ends with a non-space |
| Text.StripEmptyIffBlank | app.py:103 | a stripped answer is empty exactly when every character of it is whitespace |
| Text.StripUnchanged | app.py:99-101 | a string with no whitespace at either end is returned unchanged |
| Text.StripIdempotent | app.py:99-101 | stripping twice equals stripping once |
| Text.StripPadded | app.py:99-101 | whitespace around a string with non-space ends is exactly what `strip()` removes |
| Text.IntStrip | app.py:86 | what `int()` reads as the literal is never longer than its input and neither starts nor ends with whitespace `int()` skips |
| Text.AsciiLower | app.py:100 | `lower()` keeps the length, maps each character on its own and leaves no upper-case ASCII letter |
| Text.AsciiLowerFixed | app.py:100 | lower-casing a string with no upper-case letter is the identity |
| Text.AsciiLowerIdempotent | app.py:100 | lower-casing twice equals lower-casing once |
| Text.Split | app.py:83 | `split("$")` yields at least one field, and no field contains `$` |
| Text.SplitLength | app.py:83 | the number of fields is the number of `$` plus one, so unpacking into four needs exactly three |
| Text.JoinSplit | app.py:83 | joining the fields of a split on `$` rebuilds the string |
| Text.SplitAfterField | app.py:83 | a `$`-free prefix followed by `$` is split off as one whole field |
| Text.SplitNoSeparator | app.py:83 | a string without `$` is one field |
| Text.Join | app.py:78 | the join starts with the first field, and joining `$`-free fields leaves exactly one `$` fewer than there are fields (where they sit is what `Text.SplitJoin` states) |
| Text.SplitJoin | app.py:78-83 | splitting a `$`-join of `$`-free fields gives back those fields |
| Text.ParseInt | app.py:86 | `int()` succeeds exactly when, after removing the surrounding whitespace it skips (the `isspace` set without U+001C..U+001F), what is left is an optional sign and one to 4300 ASCII digits |
| Text.ParseIntStripped | app.py:189-190 | stripping the answer before `int()` keeps every number `int()` reads without the strip, with the same value |
| Text.StripIntLiteral | app.py:189-190 | around an integer literal `strip()` removes exactly the whitespace `int()` skips |
| Text.ParseIntRefusesSeparators | app.py:86 | `int()` refuses a string that starts or ends with one of U+001C..U+001F |
| Text.StripBeforeParseMatters | app.py:189-190 | the strip before `int()` matters: `int()` refuses U+001C followed by `3`, and reads 3 once it is stripped |
| Text.ParseIntRejects | app.py:189-190 | after removing the whitespace `int()` skips, `int()` refuses a blank string, a lone sign, any non-digit after the optional sign, and more than 4300 digits |
| Text.ParseSigned | app.py:189-190 | a `-` or `+` followed by one to 4300 digits parses to the number the digits denote, negated after `-` |
| Text.ParseDigits | app.py:86 | a run of at most 4300 digits parses to the number it denotes |
| Text.NatToString | app.py:78 | the f-string rendering of a count is digits only, with no leading zero |
| Text.DigitsOfNatToString | app.py:78 | the digits of the rendering denote the count |
| Text.NatToStringLength | app.py:78 | a number below `10^k` renders in at most `k` digits |
| Text.ParseNatToString | app.py:78-86 | `int(f"{n}") == n` whenever the rendering has at most 4300 digits |
| Text.NatToStringInjective | app.py:78 | distinct counts render distinctly |
| Hex.HexValue | app.py:87 | a character decodes to a nibble exactly when its lower-case form is a hex digit |
| Hex.Hexlify | app.py:78 | the encoding is twice as long as the bytes, made of lower-case hex digits, and byte `i` is written at positions `2i` and `2i+1`, high nibble first |
| Hex.Unhexlify | app.py:87 | a successful decode has half the length of its input |
| Hex.UnhexlifyHexlify | app.py:78-87 | decoding the encoding of any bytes gives the bytes back |
| Hex.HexlifyInjective | app.py:89 | different keys have different hex forms |
| Hex.UnhexlifyDefined | app.py:87 | decoding succeeds exactly for even-length strings of hex digits of either case |
| Hex.HexlifyUnhexlify | app.py:87-89 | re-encoding a decoded string gives it lower-cased |
| Hex.HexlifyUnhexlifyLower | app.py:87-89 | a lower-case hex string is the encoding of what it decodes to |
| Credentials.HashPassword | app.py:75-78 | a record exists exactly when the count is between one and 2^31-1 (otherwise the key derivation raises) |
| Credentials.SeparatorFree | app.py:78 | none of the tag, the decimal count or a hex encoding contains `$` |
| Credentials.HashPasswordFields | app.py:75-78 | the record has exactly four fields: the tag, the count in decimal (which parses back), a 32-digit lower-case salt field that decodes to the salt, and the hex of the derived key |
| Credentials.VerifyPassword | app.py:81-91 | a record that verifies has four fields: the tag, a count in range, a salt field that decodes, and the hex of the key derived from the candidate with that salt and count |
| Credentials.VerifyHashPassword | app.py:75-89 | round trip: for every count in range and every salt, the record verifies its own password |
| Credentials.VerifyWellFormedRecord | app.py:81-91 | the converse of `VerifyPassword`'s contract: a four-field record with the tag, any count spelling `int()` accepts in range, any salt field `unhexlify` decodes (either case) and the lower-case hex of the key derived with them verifies |
| Credentials.VerifyWrongPassword | app.py:88-89 | a candidate whose derived key differs is refused |
| Credentials.HashPasswordSaltsDiffer | app.py:76-78 | different salts give different records for the same password and count |
| Credentials.VerifyFailsClosed | app.py:82-91 | `false` when the record does not have exactly three `$`, the tag differs, the count is not an integer (one starting or ending with U+001C..U+001F included), is below one or is above 2^31-1, or the salt field has odd length or a non-hex character |
| Credentials.VerifyNeedsLowerHexKey | app.py:89 | a record that verifies has a key field of even length in lower-case hex, so an upper-case key never verifies |
| Credentials.VerifyAcceptsOnlyDerivedKey | app.py:83-89 | a verifying record is the tag, its count, its salt field and the lower-case hex of the key derived from the password with that salt and count; the salt field lower-cased is the salt's hex |
| Tables.FindUserByEmail | app.py:149-150 | no row exactly when no stored email equals the given one; otherwise the first stored row with that email |
| Tables.Authenticate | app.py:145-156 | no user when the email is absent; a returned user is stored, has that email and its record verifies the password |
| Tables.AuthenticateUnique | app.py:145-156 | with unique emails, a user is authenticated exactly when the password verifies against that user's record |
| Tables.AuthenticateAfterRegister | app.py:110-115 | after a fresh email is appended with its hashed record, that email and password authenticate as the new row |
| Tables.FindProduct | app.py:159-165 | no product exactly when no row has the id; otherwise a row of the catalogue with that id |
| Tables.CheckOrder | app.py:170-202 | an accepted attempt has a positive quantity and a non-negative subtotal |
| Tables.Subtotal | app.py:204 | the subtotal of a positive quantity is never negative |
| Tables.CheckOrderAccepted | app.py:179-204 | an accepted attempt carries a stored user with the normalised email whose record verifies the stripped password, the catalogue product with the typed id, the typed quantity, and the subtotal equal to price times quantity |
| Tables.CheckOrderRejections | app.py:170-202 | each rejection (no users, bad credentials, not a number, quantity not positive, unknown product) happens exactly when every earlier check passed and its own fails |
| Tables.CheckOrderNegativeQuantity | app.py:189-197 | with a known account and a numeric product id, a quantity typed as `-` followed by digits is refused as not positive |
| Tables.CheckOrderUnknownEmail | app.py:179-184 | an unknown email is always rejected, and as bad credentials once a user exists |
| Tables.LinesOf | app.py:48-56 | the line items of an order hold every stored line pointing at that order, as many times as it is stored, and no other line |
| Tables.NoLinesOf | app.py:50 | with headers and lines paired, an id that no stored order has has no lines |
| Tables.PairedOrderHasOneLine | app.py:207-222 | in a committed store every order has exactly its one line, and its total is the sum of its lines' subtotals |
| Tables.PairedLineHasOrder | app.py:215-220 | every line points at a stored order |
| Tables.PairedAppend | app.py:211-222 | appending a header with a line pointing at it, carrying its total, keeps the pairing |
| Shop.UserTableAppend | app.py:21-26 | appending a row with the next id and a fresh email keeps the `usuarios` constraints |
| Shop.OrderTableAppend | app.py:38-44 | appending a row with the next id and a non-negative total keeps the `pedidos` constraints |
| Shop.LineTableAppend | app.py:48-56 | appending a row with the next id, a positive quantity and a non-negative subtotal keeps the `pedido_items` constraints |
| Shop.Store.constructor | app.py:16-57 | a fresh database: empty tables, counters at one, the invariant established |
| Shop.Store.Register | app.py:97-120 | a blank name, email or password writes nothing; a taken email writes nothing; otherwise exactly one row with the next id, the stripped name, the lower-cased email and the hashed record is appended; orders are untouched |
| Shop.Store.PlaceOrder | app.py:168-228 | a rejected attempt writes nothing and reports the first failing check; a failed transaction leaves both tables and counters as before; a committed one appends exactly one header with the user's id and the subtotal as total and one line pointing at that header with the product, quantity and subtotal; users never change, and existing rows are never modified |
| Shop.Store.Persist | app.py:204-228 | with no fault both rows are appended with the next ids, the line pointing at the new header; with a fault at the header insert, the line insert or the commit, the rollback restores both tables and counters |
| Shop.SeedCatalog | app.py:59-69 | the seeded catalogue has distinct product ids |
| Shop.ExampleRefused | app.py:179-184 | with Ana registered, ordering with a wrong password is refused as bad credentials |
| Shop.ExampleAccepted | app.py:179-204 | with Ana registered, three of product 1 with the right password are accepted with subtotal 60 |
| Shop.ExampleSession | app.py:97-228 | on the seeded database, Ana registers as user 1, the wrong password is refused, and the order is committed as order 1 line 1 with total and subtotal 60 |

## Left out

- Console I/O: the prompts, `print` messages and the `menu` loop (app.py:260-283). The typed answers are arguments, and each outcome datatype stands for the message printed.
- `mostrar_productos` and `mostrar_pedidos` (app.py:123-133, app.py:231-256): read-only listings.
- The `init_db` DDL itself and connection mechanics (`get_conn`, cursors, `close`). The constructor plus `SeedCatalog` stand for a freshly initialised database. Their effect (rows written, or restored on rollback) is modelled.
- Foreign keys: SQLite enforces them only with `PRAGMA foreign_keys=ON`, which the program never sets.
- `Fault` chooses where the transaction fails. The model does not derive when a real insert or commit raises, for example a SQLite lock or an integer that does not fit SQLite's 64-bit `INTEGER`.
- Shop.Store.Register: only the `IntegrityError` of a taken email is caught (app.py:117). Any other database error in the insert or the commit escapes the function uncaught. `Register` has no outcome for it.
- Tables.CheckOrder: two overflows that crash the program are not modelled. A product id outside SQLite's 64-bit range makes the lookup at app.py:199 raise `OverflowError`. A quantity too large for a float (about 2^1024, 309 digits or more) makes `float(precio) * cantidad` at app.py:204 raise `OverflowError`, and that line is outside the `try`. The model treats any integer as a lookup key, and accepts such a quantity. With `NoFault`, `PlaceOrder` then commits the order.
- Tables.Subtotal: the price is a non-negative integer and the subtotal is exact. The float multiplication `float(precio) * cantidad` and its rounding are not modelled.
- Text.ParseInt: it accepts surrounding whitespace (the `isspace` set without U+001C..U+001F), an optional sign and one to 4300 ASCII digits. The 4300 is the default of `sys.get_int_max_str_digits()`. `int()` also accepts underscores between digits and non-ASCII decimal digits; the model refuses both, so `verify_password` and the order checks refuse a count or an answer written that way.
- Text.AsciiLower: only ASCII letters are lower-cased. `str.lower()` also maps other scripts, and for a few characters it changes the length.
- Credentials.Kdf: PBKDF2-HMAC-SHA256 and SHA-256 are uninterpreted. The model covers the refusal of a count below one and of a count above a C `int` (2^31-1). It does not cover other limits the library may put on its arguments, such as the length of the password or salt.
- The text encoding: `password.encode("utf-8")` cannot fail on Dafny strings (they hold Unicode scalar values), so the encoding is folded into `kdf`.
- `os.urandom(16)` and `datetime.now().isoformat(...)` are the `salt` and `timestamp` arguments.
