/**
 * Fernet encryption with key rotation: src/helpers_core/security/crypto.py over the rows of an
 * encrypted column.
 *
 * Fernet is symbolic: a token is made of its key, timestamp, nonce and plaintext, and decrypts
 * under a key exactly when it was made with it.  Any other stored text is Garbage.
 */
module KeyRing {
  import opened Wrappers
  import KeyList

  datatype Token = Token(key: string, stamp: int, nonce: int, plaintext: string) | Garbage(text: string)

  datatype CryptoError = CryptoError(message: string)

  predicate Opens(key: string, token: Token) { token.Token? && token.key == key }

  // MultiFernet.decrypt: each key in order.
  function TryKeys(keys: seq<string>, token: Token): (found: Option<string>)
    ensures found.Some? ==> token.Token? && found.value == token.plaintext
  {
    if keys == [] then None
    else if Opens(keys[0], token) then Some(token.plaintext)
    else TryKeys(keys[1..], token)
  }

  // FernetCipher, which refuses an empty tuple of keys.
  datatype Cipher = Cipher(keys: seq<string>) {
    predicate Valid() { keys != [] }

    function Encrypt(plaintext: string, stamp: int, nonce: int): Token
      requires Valid()
    {
      Token(keys[0], stamp, nonce, plaintext)
    }

    function Decrypt(token: Token): Result<string, CryptoError> {
      match TryKeys(keys, token)
      case Some(plaintext) => Success(plaintext)
      case None => Failure(CryptoError("Token cannot be decrypted with any configured Fernet key."))
    }

    // MultiFernet.rotate keeps the timestamp and draws a new nonce.
    function Rotate(token: Token, nonce: int): Result<Token, CryptoError>
      requires Valid()
    {
      match TryKeys(keys, token)
      case Some(plaintext) => Success(Token(keys[0], token.stamp, nonce, plaintext))
      case None => Failure(CryptoError("Cannot rotate: source token is not valid under any key."))
    }

    predicate NeedsReencryption(token: Token)
      requires Valid()
    {
      !Opens(keys[0], token)
    }
  }

  function Create(keys: seq<string>): Result<Cipher, string> {
    if keys == [] then Failure("FernetCipher requires at least one key.") else Success(Cipher(keys))
  }

  // A token decrypts, to its own plaintext, exactly when its key is on the list, wherever.
  lemma {:induction false} DecryptsExactlyWhen(keys: seq<string>, token: Token)
    ensures TryKeys(keys, token) == if token.Token? && token.key in keys then Some(token.plaintext) else None
  {
    if keys == [] {
    } else {
      DecryptsExactlyWhen(keys[1..], token);
    }
  }

  // What rotation does to one token.
  lemma {:induction false} RotationOfOneToken(c: Cipher, token: Token, nonce: int)
    requires c.Valid()
    ensures c.Rotate(token, nonce).Success? <==> token.Token? && token.key in c.keys
    ensures c.Rotate(token, nonce).Failure? ==>
              && c.Rotate(token, nonce).error.message == "Cannot rotate: source token is not valid under any key."
              && c.Decrypt(token) ==
                 Failure(CryptoError("Token cannot be decrypted with any configured Fernet key."))
    ensures var r := c.Rotate(token, nonce);
            r.Success? ==>
              && token.Token?
              && Cipher([c.keys[0]]).Decrypt(r.value) == c.Decrypt(token)
              && r.value.stamp == token.stamp && r.value.nonce == nonce
              && !c.NeedsReencryption(r.value)
  {
    DecryptsExactlyWhen(c.keys, token);
    if c.Rotate(token, nonce).Success? {
      DecryptsExactlyWhen([c.keys[0]], c.Rotate(token, nonce).value);
    }
  }

  // get_cipher: the cipher configured by FERNET_KEYS.
  function Configured(raw: string): Result<Cipher, string> { Create(KeyList.Keys(raw)) }

  // Rotating by configuration: with "new," in front of the variable every token that could be
  // read still reads the same, and what is encrypted from now on needs the new key alone.
  lemma RotationIsAConfigChange(k: string, raw: string, token: Token, plaintext: string, stamp: int, nonce: int)
    requires KeyList.IsKey(k)
    ensures var before, after := Configured(raw), Configured(k + "," + raw);
            && after.Success?
            && (before.Success? && before.value.Decrypt(token).Success? ==>
                  after.value.Decrypt(token) == before.value.Decrypt(token))
            && after.value.Encrypt(plaintext, stamp, nonce) == Token(k, stamp, nonce, plaintext)
            && Cipher([k]).Decrypt(after.value.Encrypt(plaintext, stamp, nonce)) == Success(plaintext)
  {
    KeyList.PrependKey(k, raw);
    DecryptsExactlyWhen(KeyList.Keys(raw), token);
    DecryptsExactlyWhen([k] + KeyList.Keys(raw), token);
    DecryptsExactlyWhen([k], Token(k, stamp, nonce, plaintext));
  }

  // The cipher exists exactly when the variable holds more than white space and commas.
  lemma ConfiguredExactlyWhen(raw: string)
    ensures Configured(raw) == if KeyList.OnlySpaceAndCommas(raw)
                               then Failure("FernetCipher requires at least one key.")
                               else Success(Cipher(KeyList.Keys(raw)))
  {
    KeyList.ValidatorExactlyWhen(raw);
  }

  // ---------------------------------------------------------------- the rotation protocol

  datatype System = System(keys: seq<string>, rows: map<nat, Token>)

  datatype Op =
    | Write(id: nat, plaintext: string, stamp: int, nonce: int)
    | Rotate(id: nat, nonce: int)
    | Prepend(key: string)
    | DropKey(index: nat)

  function Dropped(keys: seq<string>, index: nat): seq<string>
    requires index < |keys|
  {
    keys[..index] + keys[index + 1..]
  }

  // A key may go when the list keeps another one and no row needs it.
  predicate MayDrop(s: System, index: nat) {
    && index < |s.keys| && |s.keys| > 1
    && forall id :: id in s.rows && s.rows[id].Token? && s.rows[id].key == s.keys[index] ==>
         exists j :: 0 <= j < |s.keys| && j != index && s.keys[j] == s.keys[index]
  }

  predicate Permitted(s: System, op: Op) {
    match op
    case Write(_, _, _, _) => true
    case Rotate(id, _) => id in s.rows
    case Prepend(_) => true
    case DropKey(index) => MayDrop(s, index)
  }

  function Apply(s: System, op: Op): System
    requires s.keys != []
  {
    match op
    case Write(id, plaintext, stamp, nonce) =>
      s.(rows := s.rows[id := Cipher(s.keys).Encrypt(plaintext, stamp, nonce)])
    case Rotate(id, nonce) =>
      if id !in s.rows then s
      else
        var rotated := Cipher(s.keys).Rotate(s.rows[id], nonce);
        if rotated.Failure? then s else s.(rows := s.rows[id := rotated.value])
    case Prepend(key) => s.(keys := [key] + s.keys)
    case DropKey(index) => if index >= |s.keys| || |s.keys| == 1 then s else s.(keys := Dropped(s.keys, index))
  }

  function Run(keys: seq<string>, ops: History<Op>): (s: System)
    requires keys != []
    ensures s.keys != []
  {
    match ops
    case Nothing => System(keys, map[])
    case Then(past, op) => Apply(Run(keys, past), op)
  }

  predicate FollowsProtocol(keys: seq<string>, ops: History<Op>)
    requires keys != []
  {
    ops.Then? ==> FollowsProtocol(keys, ops.past) && Permitted(Run(keys, ops.past), ops.last)
  }

  predicate Readable(s: System) { forall id :: id in s.rows ==> Cipher(s.keys).Decrypt(s.rows[id]).Success? }

  lemma ReadableMeans(s: System)
    ensures Readable(s) <==> forall id :: id in s.rows ==> s.rows[id].Token? && s.rows[id].key in s.keys
  {
    forall id | id in s.rows
      ensures Cipher(s.keys).Decrypt(s.rows[id]).Success? <==> s.rows[id].Token? && s.rows[id].key in s.keys
    {
      DecryptsExactlyWhen(s.keys, s.rows[id]);
    }
  }

  lemma KeptKeys(keys: seq<string>, index: nat, k: string)
    requires index < |keys|
    ensures k in Dropped(keys, index) <==> exists j :: 0 <= j < |keys| && j != index && keys[j] == k
  {
    var kept := Dropped(keys, index);
    if j :| 0 <= j < |keys| && j != index && keys[j] == k {
      assert kept[if j < index then j else j - 1] == k;
    }
    if i :| 0 <= i < |kept| && kept[i] == k {
      assert keys[if i < index then i else i + 1] == k;
    }
  }

  // Dropping a key is harmless exactly when no row still needs it.
  lemma DropIsSafeExactlyWhen(s: System, index: nat)
    requires Readable(s) && index < |s.keys| && |s.keys| > 1
    ensures Readable(Apply(s, DropKey(index))) <==> MayDrop(s, index)
  {
    ReadableMeans(s);
    ReadableMeans(Apply(s, DropKey(index)));
    forall id | id in s.rows
      ensures s.rows[id].key in Dropped(s.keys, index) <==>
                (s.rows[id].key == s.keys[index] ==>
                   exists j :: 0 <= j < |s.keys| && j != index && s.keys[j] == s.keys[index])
    {
      KeptKeys(s.keys, index, s.rows[id].key);
    }
  }

  // The plaintext of the latest write to a row.
  function LastWritten(ops: History<Op>, id: nat): Option<string> {
    match ops
    case Nothing => None
    case Then(past, op) => if op.Write? && op.id == id then Some(op.plaintext) else LastWritten(past, id)
  }

  // A row exists exactly if it was written, and its token holds what was written last.
  predicate Holds(s: System, ops: History<Op>, id: nat) {
    && (id in s.rows <==> LastWritten(ops, id).Some?)
    && (id in s.rows ==>
          s.rows[id].Token? && s.rows[id].key in s.keys && s.rows[id].plaintext == LastWritten(ops, id).value)
  }

  lemma StepKeepsRow(s: System, ops: History<Op>, op: Op, id: nat)
    requires s.keys != [] && Permitted(s, op) && Holds(s, ops, id)
    ensures Holds(Apply(s, op), Then(ops, op), id)
  {
    match op
    case Rotate(rotated, _) => DecryptsExactlyWhen(s.keys, s.rows[rotated]);
    case DropKey(index) => if id in s.rows { KeptKeys(s.keys, index, s.rows[id].key); }
    case Write(_, _, _, _) =>
    case Prepend(_) =>
  }

  lemma {:induction false} RowsHold(keys: seq<string>, ops: History<Op>, id: nat)
    requires keys != [] && FollowsProtocol(keys, ops)
    ensures Holds(Run(keys, ops), ops, id)
  {
    if ops.Nothing? {
    } else {
      RowsHold(keys, ops.past, id);
      StepKeepsRow(Run(keys, ops.past), ops.past, ops.last, id);
    }
  }

  // Over any sequence of writes, rotations, key prepends and drops of keys no row needs, exactly
  // the written rows exist and each decrypts to what was last written to it.
  lemma {:induction false} RotationProtocol(keys: seq<string>, ops: History<Op>, id: nat)
    requires keys != [] && FollowsProtocol(keys, ops)
    ensures var s := Run(keys, ops);
            && (id in s.rows <==> LastWritten(ops, id).Some?)
            && (id in s.rows ==> Cipher(s.keys).Decrypt(s.rows[id]) == Success(LastWritten(ops, id).value))
  {
    RowsHold(keys, ops, id);
    if id in Run(keys, ops).rows { DecryptsExactlyWhen(Run(keys, ops).keys, Run(keys, ops).rows[id]); }
  }

  // The primary key alone reads every row.
  predicate PrimarySuffices(s: System)
    requires s.keys != []
  {
    Readable(s.(keys := [s.keys[0]]))
  }

  function Append<T>(a: History<T>, b: History<T>): History<T> {
    match b
    case Nothing => a
    case Then(past, last) => Then(Append(a, past), last)
  }

  predicate KeepsPrimary(ops: History<Op>) {
    ops.Then? ==> KeepsPrimary(ops.past) && !ops.last.Prepend? && ops.last != DropKey(0)
  }

  // The rows that are written or rotated.
  function Touched(ops: History<Op>): set<nat> {
    match ops
    case Nothing => {}
    case Then(past, op) => Touched(past) + if op.Write? || op.Rotate? then {op.id} else {}
  }

  lemma {:induction false} PrimaryStays(keys: seq<string>, ops: History<Op>, later: History<Op>)
    requires keys != [] && KeepsPrimary(later)
    ensures Run(keys, Append(ops, later)).keys[0] == Run(keys, ops).keys[0]
  {
    if later.Nothing? {
    } else {
      PrimaryStays(keys, ops, later.past);
    }
  }

  // While the primary key stays, the rows written or rotated are under it, and the others are as
  // they were.
  lemma {:induction false} UntouchedRowsStay(keys: seq<string>, ops: History<Op>, later: History<Op>, id: nat)
    requires keys != [] && FollowsProtocol(keys, Append(ops, later)) && KeepsPrimary(later)
    ensures var before, s := Run(keys, ops), Run(keys, Append(ops, later));
            if id in Touched(later) then id in s.rows && Opens(before.keys[0], s.rows[id])
            else (id in s.rows <==> id in before.rows) && (id in s.rows ==> s.rows[id] == before.rows[id])
  {
    if later.Nothing? {
    } else {
      UntouchedRowsStay(keys, ops, later.past, id);
      PrimaryStays(keys, ops, later.past);
      if later.last.Rotate? && later.last.id == id {
        RotatedRowIsPrimary(keys, Append(ops, later.past), id, later.last.nonce);
      }
    }
  }

  lemma RotatedRowIsPrimary(keys: seq<string>, ops: History<Op>, id: nat, nonce: int)
    requires keys != [] && FollowsProtocol(keys, ops) && id in Run(keys, ops).rows
    ensures var s := Run(keys, ops);
            var s' := Apply(s, Rotate(id, nonce));
            id in s'.rows && Opens(s.keys[0], s'.rows[id])
  {
    RowsHold(keys, ops, id);
    DecryptsExactlyWhen(Run(keys, ops).keys, Run(keys, ops).rows[id]);
  }

  // The rows under a key.
  function Under(s: System, key: string): set<nat> { set id | id in s.rows && Opens(key, s.rows[id]) }

  // The primary key alone reads everything exactly when every row was written or rotated since
  // it became the primary key, or was under that key before.
  lemma ConvergedExactlyWhen(keys: seq<string>, ops: History<Op>, later: History<Op>)
    requires keys != [] && FollowsProtocol(keys, Append(ops, later)) && KeepsPrimary(later)
    ensures var before, s := Run(keys, ops), Run(keys, Append(ops, later));
            PrimarySuffices(s) <==> s.rows.Keys <= Touched(later) + Under(before, before.keys[0])
  {
    var before, s := Run(keys, ops), Run(keys, Append(ops, later));
    var key := before.keys[0];
    PrimaryStays(keys, ops, later);
    ReadableMeans(s.(keys := [key]));
    forall id | id in s.rows
      ensures s.rows[id].Token? && s.rows[id].key == key <==> id in Touched(later) + Under(before, key)
    {
      UntouchedRowsStay(keys, ops, later, id);
    }
  }

  lemma {:induction false} FollowsFromTheStart(keys: seq<string>, ops: History<Op>, later: History<Op>)
    requires keys != [] && FollowsProtocol(keys, Append(ops, later))
    ensures FollowsProtocol(keys, ops)
  {
    if later.Nothing? {
    } else {
      FollowsFromTheStart(keys, ops, later.past);
    }
  }

  lemma FreshKeyHasNoRows(keys: seq<string>, ops: History<Op>, key: string)
    requires keys != [] && FollowsProtocol(keys, ops) && key !in Run(keys, ops).keys
    ensures Under(Run(keys, ops), key) == {}
  {
    var s := Run(keys, ops);
    forall id | id in s.rows ensures !Opens(key, s.rows[id]) {
      RowsHold(keys, ops, id);
    }
  }

  // The documentation says rotation to a new key converges by itself as rows are updated.  It has
  // converged exactly when every row was written or rotated since the key was prepended.
  lemma FreshKeyConvergedExactlyWhen(keys: seq<string>, ops: History<Op>, key: string, later: History<Op>)
    requires keys != [] && FollowsProtocol(keys, Append(Then(ops, Prepend(key)), later)) && KeepsPrimary(later)
    requires key !in Run(keys, ops).keys
    ensures var s := Run(keys, Append(Then(ops, Prepend(key)), later));
            && s.keys[0] == key
            && (PrimarySuffices(s) <==> s.rows.Keys <= Touched(later))
  {
    var prepended := Then(ops, Prepend(key));
    PrimaryStays(keys, prepended, later);
    ConvergedExactlyWhen(keys, prepended, later);
    FollowsFromTheStart(keys, prepended, later);
    FreshKeyHasNoRows(keys, ops, key);
    assert Under(Run(keys, prepended), key) == Under(Run(keys, ops), key);
  }

  // ---------------------------------------------------------------- a re-encryption sweep

  // Streams all rows and rotates those that need it; a token no key opens raises CryptoError.
  method Sweep(c: Cipher, rows: map<nat, Token>, nonces: nat -> int) returns (r: Result<map<nat, Token>, CryptoError>)
    requires c.Valid()
    ensures r.Success? <==> forall id :: id in rows ==> c.Decrypt(rows[id]).Success?
    ensures r.Success? ==> r.value == Swept(c, rows, nonces)
    ensures r.Failure? ==> r.error.message == "Cannot rotate: source token is not valid under any key."
  {
    var done := map[];
    var rest := rows.Keys;
    forall id | id in rows ensures !c.NeedsReencryption(rows[id]) ==> c.Decrypt(rows[id]).Success? {
      DecryptsExactlyWhen(c.keys, rows[id]);
    }
    while rest != {}
      invariant rest <= rows.Keys && done.Keys == rows.Keys - rest
      invariant forall id :: id in done ==>
                  c.Decrypt(rows[id]).Success? && done[id] == SweptToken(c, rows[id], nonces(id))
    {
      var id :| id in rest;
      rest := rest - {id};
      if c.NeedsReencryption(rows[id]) {
        var rotated := c.Rotate(rows[id], nonces(id));
        match rotated {
          case Success(token) => done := done[id := token];
          case Failure(e) => return Failure(e);
        }
      } else {
        done := done[id := rows[id]];
      }
    }
    r := Success(done);
  }

  function SweptToken(c: Cipher, token: Token, nonce: int): Token
    requires c.Valid()
  {
    if c.NeedsReencryption(token) && c.Rotate(token, nonce).Success? then c.Rotate(token, nonce).value else token
  }

  function Swept(c: Cipher, rows: map<nat, Token>, nonces: nat -> int): map<nat, Token>
    requires c.Valid()
  {
    map id | id in rows :: SweptToken(c, rows[id], nonces(id))
  }

  // A sweep keeps every plaintext, leaves rows already under the primary key byte for byte as
  // they are, makes the primary key alone sufficient, and a second sweep changes nothing.
  lemma SweepConverges(c: Cipher, rows: map<nat, Token>, nonces: nat -> int, again: nat -> int)
    requires c.Valid() && forall id :: id in rows ==> c.Decrypt(rows[id]).Success?
    ensures var swept := Swept(c, rows, nonces);
            && swept.Keys == rows.Keys
            && (forall id :: id in rows ==>
                  && Cipher([c.keys[0]]).Decrypt(swept[id]) == c.Decrypt(rows[id])
                  && (!c.NeedsReencryption(rows[id]) ==> swept[id] == rows[id]))
            && Swept(c, swept, again) == swept
  {
    var swept := Swept(c, rows, nonces);
    forall id | id in rows
      ensures Cipher([c.keys[0]]).Decrypt(swept[id]) == c.Decrypt(rows[id]) && !c.NeedsReencryption(swept[id])
    {
      RotationOfOneToken(c, rows[id], nonces(id));
      DecryptsExactlyWhen(c.keys, rows[id]);
      DecryptsExactlyWhen([c.keys[0]], swept[id]);
    }
  }

  // ---------------------------------------------------------------- ciphertext lengths

  // Bytes of the UTF-8 encoding.
  function Utf8Length(s: string): nat {
    if s == "" then 0
    else
      Utf8Length(s[1..]) +
      if s[0] <= '\U{7f}' then 1 else if s[0] <= '\U{7ff}' then 2 else if s[0] <= '\U{ffff}' then 3 else 4
  }

  // The token of an n-byte plaintext: version, timestamp, nonce and HMAC take 57 bytes, the
  // plaintext is padded to whole 16-byte blocks (Fernet specification, "Token Format"), and the
  // whole is base64url-encoded with padding (section 5 of RFC 4648).
  function TokenLength(n: nat): nat { (57 + 16 * (n / 16 + 1) + 2) / 3 * 4 }

  // Whole base64 quanta of 4 characters, just enough for version (1), timestamp (8), nonce (16),
  // ciphertext and HMAC (32); the ciphertext is the plaintext padded by 1 to 16 bytes.
  lemma TokenLayout(n: nat)
    ensures exists ciphertext :: ciphertext % 16 == 0 && n < ciphertext <= n + 16
              && var bytes := 1 + 8 + 16 + ciphertext + 32;
              TokenLength(n) % 4 == 0 && 3 * (TokenLength(n) - 4) < 4 * bytes <= 3 * TokenLength(n)
  {
    var ciphertext := 16 * (n / 16 + 1);
    assert ciphertext % 16 == 0 && n < ciphertext <= n + 16;
    var quanta := (57 + ciphertext + 2) / 3;
    assert TokenLength(n) == quanta * 4;
  }

  // The longest plaintext whose token fits `width` characters, -1 if none does.
  function Capacity(width: nat): int {
    var blocks := (width / 4 * 3 - 57) / 16;
    if blocks < 1 then -1 else 16 * blocks - 1
  }

  // A value fits its column exactly up to the column's capacity, for every column width; the
  // repository's columns of 512, 1024 and 2048 hold 319, 703 and 1471 bytes.
  lemma FitsExactlyWhen(n: nat, width: nat)
    ensures TokenLength(n) <= width <==> n <= Capacity(width)
    ensures Capacity(512) == 319 && Capacity(1024) == 703 && Capacity(2048) == 1471
  {
    var size := 57 + 16 * (n / 16 + 1);
    assert (size + 2) / 3 * 4 <= width <==> (size + 2) / 3 <= width / 4;
    assert (size + 2) / 3 <= width / 4 <==> size <= width / 4 * 3;
    var blocks := (width / 4 * 3 - 57) / 16;
    assert size <= width / 4 * 3 <==> n / 16 + 1 <= blocks;
    assert n / 16 + 1 <= blocks <==> n <= 16 * blocks - 1;
  }

  function StoredLength(token: Token): nat {
    match token
    case Token(_, _, _, plaintext) => TokenLength(Utf8Length(plaintext))
    case Garbage(text) => |text|
  }

  lemma {:induction false} Utf8Bounds(s: string)
    ensures |s| <= Utf8Length(s) <= 4 * |s|
  {
    if s == "" {
    } else {
      Utf8Bounds(s[1..]);
    }
  }

  // The characters that need this many bytes in UTF-8 (section 3 of RFC 3629).
  predicate Takes(ch: char, bytes: nat) {
    match bytes
    case 1 => ch as int <= 0x7f
    case 2 => 0x80 <= ch as int <= 0x7ff
    case 3 => 0x800 <= ch as int <= 0xffff
    case 4 => 0x10000 <= ch as int
    case _ => false
  }

  predicate InRange(s: string, bytes: nat) { forall i :: 0 <= i < |s| ==> Takes(s[i], bytes) }

  lemma {:induction false} Utf8OfOneRange(s: string, bytes: nat)
    requires InRange(s, bytes)
    ensures Utf8Length(s) == bytes * |s|
  {
    if s == "" {
    } else {
      assert InRange(s[1..], bytes);
      Utf8OfOneRange(s[1..], bytes);
    }
  }

  lemma {:induction false} Utf8Append(a: string, b: string)
    ensures Utf8Length(a + b) == Utf8Length(a) + Utf8Length(b)
  {
    if a == "" {
      assert a + b == b;
    } else {
      Utf8Append(a[1..], b);
      assert (a + b)[1..] == a[1..] + b;
    }
  }

  // What the repository's columns hold of a text in one script: 319, 703 and 1471 Latin letters,
  // half as many Cyrillic ones.
  lemma ColumnsInCharacters(token: Token, bytes: nat)
    requires token.Token? && InRange(token.plaintext, bytes)
    ensures StoredLength(token) <= 512 <==> bytes * |token.plaintext| <= 319
    ensures StoredLength(token) <= 1024 <==> bytes * |token.plaintext| <= 703
    ensures StoredLength(token) <= 2048 <==> bytes * |token.plaintext| <= 1471
  {
    Utf8OfOneRange(token.plaintext, bytes);
    FitsExactlyWhen(Utf8Length(token.plaintext), 512);
    FitsExactlyWhen(Utf8Length(token.plaintext), 1024);
    FitsExactlyWhen(Utf8Length(token.plaintext), 2048);
  }

  // Rotation never outgrows a column, and a text of at most 79 characters fits every column
  // whatever its script.
  lemma RotationKeepsLength(c: Cipher, token: Token, nonce: int)
    requires c.Valid() && c.Rotate(token, nonce).Success?
    ensures StoredLength(c.Rotate(token, nonce).value) == StoredLength(token)
    ensures token.Token? && |token.plaintext| <= 79 ==> StoredLength(token) <= 512
  {
    DecryptsExactlyWhen(c.keys, token);
    Utf8Bounds(token.plaintext);
    FitsExactlyWhen(Utf8Length(token.plaintext), 512);
  }
}
