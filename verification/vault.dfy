/** The session manager: browser cookies kept between runs in a file
    encrypted with a key derived from the master password. */
module Vault {
  // The salt file and the session file are the state. Cryptography and JSON
  // are parameters; the key's Base 64 encoding is modelled exactly.
  import opened Wrappers
  import opened Base64

  /** A cookie as the browser hands it over: field name to value. */
  type Cookie = map<string, string>

  /** The master password, given as text (UTF-8 encoded before use) or as
      bytes. */
  datatype Secret = Text(text: string) | Raw(bytes: Bytes)

  /** The files the manager keeps: the salt and the encrypted session, each
      present or not. */
  datatype Files = Files(salt: Option<Bytes>, session: Option<Bytes>)

  /** The primitives the manager calls. `pbkdf2` takes password, salt,
      iteration count and key length; `encrypt` takes key, the fresh IV and
      timestamp of a Fernet token, and plaintext; `decrypt` is `None` where
      Fernet raises `InvalidToken`; `loads` is `None` where `json.loads`
      raises. */
  datatype Crypto = Crypto(
    utf8: string -> Bytes,
    pbkdf2: (Bytes, Bytes, nat, nat) -> Bytes,
    encrypt: (Bytes, Bytes, Bytes) -> Bytes,
    decrypt: (Bytes, Bytes) -> Option<Bytes>,
    dumps: seq<Cookie> -> Bytes,
    loads: Bytes -> Option<seq<Cookie>>)

  /** What the primitives promise: PBKDF2 yields as many bytes as asked;
      Fernet works with the bytes a key text decodes to, so that two texts
      with the same bytes (see `Base64.PadBitsIgnored` and
      `Base64.SameReading`) are the same key; a token opens under the key
      that sealed it; a key whose signing half (its first 16 bytes, the HMAC
      key) differs from the sealing key's opens nothing, since the HMAC
      check fails; JSON reads back what it wrote. A key with the same
      signing half but another encryption half passes the HMAC check and
      may decrypt to other bytes or fail on the padding; nothing is
      promised for it. */
  ghost predicate Sound(c: Crypto) {
    (forall p, s, i, n :: |c.pbkdf2(p, s, i, n)| == n)
    && (forall k1, k2, iv, m :: FernetKey(k1) && Decode(k1) == Decode(k2) ==>
          c.encrypt(k1, iv, m) == c.encrypt(k2, iv, m))
    && (forall k1, k2, t :: FernetKey(k1) && Decode(k1) == Decode(k2) ==> c.decrypt(k1, t) == c.decrypt(k2, t))
    && (forall k, iv, m :: FernetKey(k) ==> c.decrypt(k, c.encrypt(k, iv, m)) == Some(m))
    && (forall k1, k2, iv, m :: OtherSigningKey(k1, k2) ==> c.decrypt(k2, c.encrypt(k1, iv, m)).None?)
    && (forall cs :: c.loads(c.dumps(cs)) == Some(cs))
  }

  /** PBKDF2-HMAC-SHA256 iteration count and derived key length. */
  const Iterations: nat := 100000
  const KeyBytes: nat := 32
  /** Length of the random salt. */
  const SaltBytes: nat := 32

  /** `Fernet(key)` accepts the key: it decodes to 32 bytes. */
  predicate FernetKey(k: Bytes) {
    var d := Decode(k);
    d.Some? && |d.value| == KeyBytes
  }

  /** Two keys `Fernet` accepts whose signing halves differ. */
  predicate OtherSigningKey(k1: Bytes, k2: Bytes) {
    FernetKey(k1) && FernetKey(k2) && Decode(k1).value[..16] != Decode(k2).value[..16]
  }

  /** The password's bytes. */
  function PasswordBytes(pw: Secret, c: Crypto): Bytes {
    match pw
    case Text(t) => c.utf8(t)
    case Raw(b) => b
  }

  /** `_get_or_create_salt`: the stored salt, or `newSalt` written first when
      there is none. */
  function SaltOf(f: Files, newSalt: Bytes): (r: (Files, Bytes))
    requires |newSalt| == SaltBytes
    ensures r.0.salt == Some(r.1) && r.0.session == f.session
    ensures f.salt.Some? ==> r == (f, f.salt.value)
    ensures f.salt.None? ==> r.1 == newSalt
  {
    if f.salt.None? then (f.(salt := Some(newSalt)), newSalt) else (f, f.salt.value)
  }

  /** Whether the password is itself a Fernet key: 44 bytes that `Fernet`
      accepts. */
  predicate IsKey(pw: Bytes) {
    |pw| == 44 && FernetKey(pw)
  }

  /** `_derive_key`: a password that is already a Fernet key is used as it
      is; any other is stretched with PBKDF2 over the salt (created if
      missing) and Base 64 encoded. */
  function DeriveKey(f: Files, pw: Secret, c: Crypto, newSalt: Bytes): (r: (Files, Bytes))
    requires |newSalt| == SaltBytes
    ensures IsKey(PasswordBytes(pw, c)) ==> r == (f, PasswordBytes(pw, c))
    ensures !IsKey(PasswordBytes(pw, c)) ==>
      r.0.salt.Some? && (f.salt.Some? ==> r.0.salt == f.salt)
      && r.1 == Encode(c.pbkdf2(PasswordBytes(pw, c), r.0.salt.value, Iterations, KeyBytes))
    ensures r.0.session == f.session
  {
    var b := PasswordBytes(pw, c);
    if IsKey(b) then (f, b)
    else
      var (f1, salt) := SaltOf(f, newSalt);
      (f1, Encode(c.pbkdf2(b, salt, Iterations, KeyBytes)))
  }

  /** With sound primitives every derived key is one `Fernet` accepts. */
  lemma DerivedKeyValid(f: Files, pw: Secret, c: Crypto, newSalt: Bytes)
    requires Sound(c) && |newSalt| == SaltBytes
    ensures FernetKey(DeriveKey(f, pw, c, newSalt).1)
  {
    var b := PasswordBytes(pw, c);
    if !IsKey(b) {
      var salt := SaltOf(f, newSalt).1;
      var m := c.pbkdf2(b, salt, Iterations, KeyBytes);
      DecodeEncode(m);
    }
  }

  /** Once a salt exists the key depends on the password alone: deriving
      never changes the files again and gives the same key every time. */
  lemma DeriveStable(f: Files, pw: Secret, c: Crypto, newSalt1: Bytes, newSalt2: Bytes)
    requires |newSalt1| == SaltBytes && |newSalt2| == SaltBytes
    ensures var (f1, k1) := DeriveKey(f, pw, c, newSalt1);
      DeriveKey(f1, pw, c, newSalt2) == (f1, k1)
  {
  }

  /** A key in the standard alphabet, '+' and '/' for '-' and '_', is the
      same key: a password spelled so is used as it is. */
  lemma StandardSpelling(pw: Bytes)
    requires IsKey(pw)
    ensures IsKey(Standard(pw)) && Decode(Standard(pw)) == Decode(pw)
  {
    var s := Standard(pw);
    forall i | 0 <= i < |pw| ensures Alike(pw[i], s[i]) {
    }
    SameReading(pw, s);
  }

  /** The text with '-' and '_' written as '+' and '/'. */
  function Standard(k: Bytes): (r: Bytes)
    ensures |r| == |k|
    ensures forall i :: 0 <= i < |k| ==> r[i] == (if k[i] == 45 then 43 else if k[i] == 95 then 47 else k[i])
  {
    seq(|k|, i requires 0 <= i < |k| => if k[i] == 45 then 43 else if k[i] == 95 then 47 else k[i])
  }

  /** Forty-three characters ending in '+' before a pad make a key, as
      `Fernet` reads it; ten whole groups of zero bytes and "AA+=" is such a
      password. */
  lemma PlusBeforePad(bs: Bytes, v0: int, v1: int)
    requires |bs| == 30 && 0 <= v0 < 64 && 0 <= v1 < 64
    ensures IsKey(Encode(bs) + [Symbol(v0), Symbol(v1), 43, Pad])
  {
    var e := Encode(bs);
    var url, std := e + [Symbol(v0), Symbol(v1), Symbol(62), Pad], e + [Symbol(v0), Symbol(v1), 43, Pad];
    EncodeLength(bs);
    WholeGroups(bs);
    LastGroup(bs, v0, v1, 62);
    forall i | 0 <= i < |url| ensures Alike(url[i], std[i]) {
      if i == |e| + 2 {
        assert url[i] == 45 && std[i] == 43;
      } else {
        assert url[i] == std[i];
      }
    }
    SameReading(url, std);
  }

  /** `save_cookies`: the cookies as JSON, encrypted under the derived key,
      replace the session file; `false` when `Fernet` rejects the key, by
      which time a new salt may already be written. */
  function SaveCookies(f: Files, cookies: seq<Cookie>, pw: Secret, c: Crypto, newSalt: Bytes, iv: Bytes)
    : (r: (Files, bool))
    requires |newSalt| == SaltBytes
    ensures var (f1, key) := DeriveKey(f, pw, c, newSalt);
      r.0.salt == f1.salt
      && (r.1 <==> FernetKey(key))
      && (r.1 ==> r.0.session == Some(c.encrypt(key, iv, c.dumps(cookies))))
      && (!r.1 ==> r.0.session == f.session)
  {
    var (f1, key) := DeriveKey(f, pw, c, newSalt);
    if !FernetKey(key) then (f1, false)
    else (f1.(session := Some(c.encrypt(key, iv, c.dumps(cookies)))), true)
  }

  /** With sound primitives saving always succeeds. */
  lemma SaveSucceeds(f: Files, cookies: seq<Cookie>, pw: Secret, c: Crypto, newSalt: Bytes, iv: Bytes)
    requires Sound(c) && |newSalt| == SaltBytes
    ensures SaveCookies(f, cookies, pw, c, newSalt, iv).1
  {
    DerivedKeyValid(f, pw, c, newSalt);
  }

  /** `load_cookies`: `None` when there is no session file, when the key is
      rejected, when the token does not open under it, or when the plaintext
      is not JSON; otherwise the decoded cookies. Only an existing session
      file leads to deriving the key, which may create the salt. */
  function LoadCookies(f: Files, pw: Secret, c: Crypto, newSalt: Bytes): (r: (Files, Option<seq<Cookie>>))
    requires |newSalt| == SaltBytes
    ensures f.session.None? ==> r == (f, None)
    ensures f.session.Some? ==>
      var (f1, key) := DeriveKey(f, pw, c, newSalt);
      r.0 == f1
      && (r.1.Some? <==> FernetKey(key) && c.decrypt(key, f.session.value).Some?
                         && c.loads(c.decrypt(key, f.session.value).value).Some?)
      && (r.1.Some? ==> r.1 == c.loads(c.decrypt(key, f.session.value).value))
  {
    if f.session.None? then (f, None)
    else
      var (f1, key) := DeriveKey(f, pw, c, newSalt);
      if !FernetKey(key) then (f1, None)
      else match c.decrypt(key, f.session.value)
        case None => (f1, None)
        case Some(plain) => (f1, c.loads(plain))
  }

  /** Loading with the password that saved gives back the cookies saved,
      whether or not a salt existed before the save. */
  lemma SaveThenLoad(f: Files, cookies: seq<Cookie>, pw: Secret, c: Crypto, newSalt1: Bytes, iv: Bytes,
                     newSalt2: Bytes)
    requires Sound(c) && |newSalt1| == SaltBytes && |newSalt2| == SaltBytes
    ensures var f1 := SaveCookies(f, cookies, pw, c, newSalt1, iv).0;
      LoadCookies(f1, pw, c, newSalt2) == (f1, Some(cookies))
  {
    DerivedKeyValid(f, pw, c, newSalt1);
    DeriveStable(f, pw, c, newSalt1, newSalt2);
  }

  /** Loading with a password whose key has another signing half than the
      saving one's gives nothing, the same answer as a missing file. */
  lemma WrongPasswordLoadsNothing(f: Files, cookies: seq<Cookie>, pw: Secret, other: Secret, c: Crypto,
                                  newSalt1: Bytes, iv: Bytes, newSalt2: Bytes)
    requires Sound(c) && |newSalt1| == SaltBytes && |newSalt2| == SaltBytes
    requires var f1 := SaveCookies(f, cookies, pw, c, newSalt1, iv).0;
      OtherSigningKey(DeriveKey(f1, pw, c, newSalt2).1, DeriveKey(f1, other, c, newSalt2).1)
    ensures LoadCookies(SaveCookies(f, cookies, pw, c, newSalt1, iv).0, other, c, newSalt2).1 == None
  {
    var (f0, key) := DeriveKey(f, pw, c, newSalt1);
    var f1 := SaveCookies(f, cookies, pw, c, newSalt1, iv).0;
    DerivedKeyValid(f, pw, c, newSalt1);
    DeriveStable(f, pw, c, newSalt1, newSalt2);
    assert DeriveKey(f1, pw, c, newSalt2).1 == key by {
      assert f1.salt == f0.salt;
    }
    DerivedKeyValid(f1, other, c, newSalt2);
  }

  /** Loading with a password whose key text differs from the saving one's
      but decodes to the same bytes gives back the cookies saved: Fernet
      sees only the bytes. */
  lemma SameKeyBytesLoads(f: Files, cookies: seq<Cookie>, pw: Secret, other: Secret, c: Crypto,
                          newSalt1: Bytes, iv: Bytes, newSalt2: Bytes)
    requires Sound(c) && |newSalt1| == SaltBytes && |newSalt2| == SaltBytes
    requires var f1 := SaveCookies(f, cookies, pw, c, newSalt1, iv).0;
      Decode(DeriveKey(f1, other, c, newSalt2).1) == Decode(DeriveKey(f1, pw, c, newSalt2).1)
    ensures var f1 := SaveCookies(f, cookies, pw, c, newSalt1, iv).0;
      LoadCookies(f1, other, c, newSalt2).1 == Some(cookies)
  {
    var (f0, key) := DeriveKey(f, pw, c, newSalt1);
    var f1 := SaveCookies(f, cookies, pw, c, newSalt1, iv).0;
    DerivedKeyValid(f, pw, c, newSalt1);
    DeriveStable(f, pw, c, newSalt1, newSalt2);
    assert DeriveKey(f1, pw, c, newSalt2).1 == key by {
      assert f1.salt == f0.salt;
    }
    SaveSucceeds(f, cookies, pw, c, newSalt1, iv);
    var t := c.encrypt(key, iv, c.dumps(cookies));
    assert f1.session == Some(t);
    var k2 := DeriveKey(f1, other, c, newSalt2).1;
    assert FernetKey(k2);
    assert c.decrypt(key, t) == Some(c.dumps(cookies));
    assert c.decrypt(k2, t) == c.decrypt(key, t);
  }

  /** `delete_session`: the session file is gone and the salt stays. */
  function DeleteSession(f: Files): (r: (Files, bool))
    ensures r.1 && r.0.session.None? && r.0.salt == f.salt
  {
    (f.(session := None), true)
  }

  /** `session_exists`. */
  function SessionExists(f: Files): (r: bool)
    ensures r <==> f.session.Some?
  {
    f.session.Some?
  }

  /** After a delete nothing loads, and a later save under the same
      password uses the same key as before, the salt having survived. */
  lemma DeleteThenLoad(f: Files, pw: Secret, c: Crypto, newSalt1: Bytes, newSalt2: Bytes)
    requires |newSalt1| == SaltBytes && |newSalt2| == SaltBytes
    ensures var f1 := DeleteSession(f).0;
      LoadCookies(f1, pw, c, newSalt1) == (f1, None) && !SessionExists(f1)
    ensures f.salt.Some? ==> DeriveKey(DeleteSession(f).0, pw, c, newSalt1).1 == DeriveKey(f, pw, c, newSalt2).1
  {
  }

  /** No operation replaces a salt once written. */
  lemma SaltWrittenOnce(f: Files, cookies: seq<Cookie>, pw: Secret, c: Crypto, newSalt: Bytes, iv: Bytes)
    requires f.salt.Some? && |newSalt| == SaltBytes
    ensures SaveCookies(f, cookies, pw, c, newSalt, iv).0.salt == f.salt
    ensures LoadCookies(f, pw, c, newSalt).0.salt == f.salt
    ensures DeleteSession(f).0.salt == f.salt
  {
  }

  /** Fields every cookie must have. */
  const Required: seq<string> := ["name", "value"]

  /** `validate_cookies`, as the loop over the cookies runs: the first
      cookie missing a required field makes the answer `false`. */
  function AllHaveFields(cookies: seq<Cookie>): bool
    decreases |cookies|
  {
    if cookies == [] then true
    else ("name" in cookies[0] && "value" in cookies[0]) && AllHaveFields(cookies[1..])
  }

  /** `validate_cookies`: a non-empty list in which every cookie has a
      name and a value. */
  function ValidateCookies(cookies: seq<Cookie>): (r: bool)
    ensures r <==> |cookies| > 0 && forall i :: 0 <= i < |cookies| ==> forall fld :: fld in Required ==> fld in cookies[i]
  {
    AllFieldsExactly(cookies);
    |cookies| > 0 && AllHaveFields(cookies)
  }

  lemma {:induction false} AllFieldsExactly(cookies: seq<Cookie>)
    ensures AllHaveFields(cookies) <==> forall i :: 0 <= i < |cookies| ==> "name" in cookies[i] && "value" in cookies[i]
    decreases |cookies|
  {
    if cookies != [] {
      AllFieldsExactly(cookies[1..]);
      assert forall i :: 1 <= i < |cookies| ==> cookies[i] == cookies[1..][i - 1];
    }
  }
}
