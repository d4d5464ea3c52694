/**
 * `EncryptionManager`: derives the key from the password, turns the accounts into
 * `name=secret` lines and back, and runs the cipher over them.
 *
 * SHA-256 (FIPS 180-4, section 6.2) is not modelled: the digest is a function the
 * caller supplies that yields 32 bytes. The charset is UTF-8 in both directions and
 * the line separator is "\n".
 */
module Encryption {
  import opened Wrappers
  import opened Bytes
  import Utf8
  import opened StringUtils
  import opened Cipher
  import opened Files

  /** Length of the derived key: AES-256. */
  const KeyLength: nat := 32

  /** The two primitives the manager draws on: the AES engine and the SHA-256 digest. */
  datatype EncryptionManager = EncryptionManager(aes: Engine, sha256: seq<byte> -> seq<byte>)

  ghost predicate Valid(em: EncryptionManager)
  {
    ValidEngine(em.aes) && forall m :: |em.sha256(m)| == KeyLength
  }

  /** The accounts as the `Properties` table holds them. */
  type Accounts = map<string, string>

  // ---------------------------------------------------------------- key and cipher

  /** `generateKey`: the first 32 bytes of the digest of the password's UTF-8 bytes. */
  function GenerateKey(em: EncryptionManager, password: string): (key: seq<byte>)
    requires Valid(em)
    ensures |key| == KeyLength
    ensures key == em.sha256(Utf8.Encode(password))
  {
    em.sha256(Utf8.Encode(password))[..KeyLength]
  }

  /** `buildCipher`: the same construction and key for both directions. */
  function BuildCipher(em: EncryptionManager, password: string, forEncryption: bool): (c: PaddedCbcCipher)
    requires Valid(em)
    ensures c.engine == em.aes && c.forEncryption == forEncryption
    ensures c.key == GenerateKey(em, password)
  {
    PaddedCbcCipher(em.aes, GenerateKey(em, password), forEncryption)
  }

  /**
   * The array `performCryptographicOperation` returns: `getOutputSize` bytes holding
   * what `processBytes` wrote, then what `doFinal` wrote, then the zeros of a fresh
   * array. The lengths the two calls report are not used to trim it.
   */
  function CryptographicOutput(c: PaddedCbcCipher, input: seq<byte>): (r: Result<seq<byte>, CryptoError>)
    requires ValidEngine(c.engine)
    ensures r.Success? ==> |r.value| == OutputSize(c, |input|)
  {
    match DoFinal(c, input)
    case Failure(err) => Failure(err)
    case Success(fin) =>
      OutputFits(c, input);
      var written := ProcessBytes(c, input) + fin;
      Success(written + Zeros(OutputSize(c, |input|) - |written|))
  }

  /** `s` with `src` written over it from index `at` on. */
  function Overwrite(s: seq<byte>, at: nat, src: seq<byte>): (r: seq<byte>)
    requires at + |src| <= |s|
    ensures |r| == |s|
    ensures forall i :: 0 <= i < |s| ==> r[i] == if at <= i < at + |src| then src[i - at] else s[i]
  {
    s[..at] + src + s[at + |src|..]
  }

  /** Writing two pieces one after the other into zeros leaves them in front, then zeros. */
  lemma OverwriteZeros(n: nat, p: seq<byte>, f: seq<byte>)
    requires |p| + |f| <= n
    ensures Overwrite(Overwrite(Zeros(n), 0, p), |p|, f) == p + f + Zeros(n - |p| - |f|)
  {
    var r := Overwrite(Overwrite(Zeros(n), 0, p), |p|, f);
    var t := p + f + Zeros(n - |p| - |f|);
    assert forall i :: 0 <= i < n ==> r[i] == t[i];
  }

  /** Copies `src` into `a` from index `at` on, as the cipher writes its output; the rest of `a` stays. */
  method WriteAt(a: array<byte>, at: nat, src: seq<byte>)
    requires at + |src| <= a.Length
    modifies a
    ensures a[..] == Overwrite(old(a[..]), at, src)
  {
    forall i | 0 <= i < |src| {
      a[at + i] := src[i];
    }
  }

  /** `performCryptographicOperation`: fills a freshly allocated array and returns all of it. */
  method PerformCryptographicOperation(c: PaddedCbcCipher, input: seq<byte>)
    returns (r: Result<seq<byte>, CryptoError>)
    requires ValidEngine(c.engine)
    ensures r == CryptographicOutput(c, input)
  {
    var size := OutputSize(c, |input|);
    var cipherText := new byte[size](_ => 0);
    assert cipherText[..] == Zeros(size);
    var processed := ProcessBytes(c, input);
    OutputFits(c, input);
    var outputLen := |processed|;
    WriteAt(cipherText, 0, processed);
    var fin := DoFinal(c, input);
    if fin.Failure? {
      return Failure(fin.error);
    }
    var last := fin.value;
    WriteAt(cipherText, outputLen, last);
    OverwriteZeros(size, processed, last);
    r := Success(cipherText[..]);
  }

  /** Encryption leaves no slack in the array: the output is exactly the CBC encryption of the padded input. */
  lemma EncryptionOutputIsExact(c: PaddedCbcCipher, input: seq<byte>)
    requires ValidEngine(c.engine) && c.forEncryption
    ensures CryptographicOutput(c, input) == Success(CbcEncrypt(c.engine, c.key, ZeroIv(), Pad(input)))
  {
    EncryptionFillsOutput(c.engine, c.key, input);
    var out := CbcEncrypt(c.engine, c.key, ZeroIv(), Pad(input));
    assert out + Zeros(0) == out;
  }

  /** Decryption of what encryption wrote leaves one zero byte per padding byte after the plaintext. */
  lemma DecryptionOutputCarriesZeros(em: EncryptionManager, password: string, input: seq<byte>)
    requires Valid(em)
    ensures var key := GenerateKey(em, password);
            CryptographicOutput(BuildCipher(em, password, false), CbcEncrypt(em.aes, key, ZeroIv(), Pad(input)))
              == Success(input + Zeros(PadLength(|input|)))
  {
    var key := GenerateKey(em, password);
    DecryptionOfEncryption(em.aes, key, input);
  }

  // ---------------------------------------------------------------- plaintext

  /** One account as `loadPlainText` writes it. */
  function Line(name: string, secret: string): string
  {
    name + "=" + secret + "\n"
  }

  /** `order` lists every key of the table exactly once: an iteration order of its entry set. */
  ghost predicate IsEnumeration(order: seq<string>, keys: set<string>)
  {
    && (forall i, j :: 0 <= i < j < |order| ==> order[i] != order[j])
    && (forall k :: k in order <==> k in keys)
  }

  /** The string `loadPlainText` reduces the entries to, visiting them in `order`. */
  function PlainText(props: Accounts, order: seq<string>): (text: string)
    requires forall k :: k in order ==> k in props
    ensures text == [] || text[|text| - 1] == '\n'
  {
    if order == [] then ""
    else
      var n := |order| - 1;
      PlainText(props, order[..n]) + Line(order[n], props[order[n]])
  }

  /** `loadPlainText`: the UTF-8 bytes of that string; a null table gives no bytes. */
  function LoadPlainText(privateContent: Option<Accounts>, order: seq<string>): (bytes: seq<byte>)
    requires privateContent.Some? ==> IsEnumeration(order, privateContent.value.Keys)
    ensures privateContent.None? ==> bytes == []
    ensures privateContent == Some(map[]) ==> bytes == []
  {
    match privateContent
    case None => []
    case Some(props) =>
      assert forall i :: 0 <= i < |order| ==> order[i] in props.Keys;
      Utf8.Encode(PlainText(props, order))
  }

  /**
   * The keys and secrets the line format can carry: a key is non-empty and holds
   * neither `=` nor a line break, and a secret holds no line break (it may hold `=`).
   */
  ghost predicate WellFormed(props: Accounts)
  {
    forall k :: k in props ==> k != [] && '=' !in k && '\n' !in k && '\n' !in props[k]
  }

  /** What the body of the parsing loop in `decrypt` does with one token. */
  datatype Token = Blank | Entry(key: string, value: string) | Invalid

  function ParseToken(t: string): (r: Token)
    ensures r.Blank? <==> IsBlank(t)
    ensures r.Entry? ==> r.key != [] && '=' !in r.key && t == r.key + "=" + r.value
    ensures r.Invalid? <==> !IsBlank(t) && ('=' !in t || (|t| > 0 && t[0] == '='))
  {
    if IsBlank(t) then Blank
    else
      var splitIdx := IndexOf(t, '=');
      if splitIdx > 0 then
        assert t == t[..splitIdx] + "=" + t[splitIdx + 1..];
        Entry(t[..splitIdx], t[splitIdx + 1..])
      else Invalid
  }

  /** The table after putting one token's entry, if it has one. */
  function Apply(props: Accounts, t: string): Accounts
  {
    match ParseToken(t)
    case Entry(key, value) => props[key := value]
    case _ => props
  }

  /** The table the parsing loop has built after `tokens`. */
  function Parsed(tokens: seq<string>): Accounts
  {
    if tokens == [] then map[]
    else
      var n := |tokens| - 1;
      Apply(Parsed(tokens[..n]), tokens[n])
  }

  /** The tokens the parsing loop logged as invalid entries, in order. */
  function InvalidTokens(tokens: seq<string>): seq<string>
  {
    if tokens == [] then []
    else
      var n := |tokens| - 1;
      InvalidTokens(tokens[..n]) + (if ParseToken(tokens[n]).Invalid? then [tokens[n]] else [])
  }

  /** The text `decrypt` recovers from the bytes of a file: decrypted, then decoded. */
  function DecryptedText(em: EncryptionManager, content: seq<byte>, password: string): Result<string, CryptoError>
    requires Valid(em)
  {
    match CryptographicOutput(BuildCipher(em, password, false), content)
    case Failure(err) => Failure(err)
    case Success(outputBytes) => Success(Utf8.Decode(outputBytes))
  }

  /** The table `decrypt` returns for the bytes of a file. */
  function DecryptedAccounts(em: EncryptionManager, content: seq<byte>, password: string): Result<Accounts, CryptoError>
    requires Valid(em)
  {
    match DecryptedText(em, content, password)
    case Failure(err) => Failure(err)
    case Success(text) => Success(Parsed(Split(text, '\n')))
  }

  /**
   * `decrypt`: reads the file, runs the cipher backwards, and puts every token of the
   * form `key=value` with a non-empty key into a fresh table. A cipher failure
   * propagates; tokens without a usable `=` are returned as the logged warnings.
   */
  method Decrypt(em: EncryptionManager, encryptedFile: FileProxy, password: string)
    returns (r: Result<Accounts, CryptoError>, warnings: seq<string>)
    requires Valid(em)
    ensures r == DecryptedAccounts(em, encryptedFile.contents, password)
    ensures DecryptedText(em, encryptedFile.contents, password).Success? ==>
              warnings == InvalidTokens(Split(DecryptedText(em, encryptedFile.contents, password).value, '\n'))
  {
    var cipher := BuildCipher(em, password, false);
    var encryptedContent := encryptedFile.contents;
    var outputBytes := PerformCryptographicOperation(cipher, encryptedContent);
    if outputBytes.Failure? {
      return Failure(outputBytes.error), [];
    }
    var decryptedStr := Utf8.Decode(outputBytes.value);
    var pairs := Split(decryptedStr, '\n');
    var props: Accounts := map[];
    warnings := [];
    for i := 0 to |pairs|
      invariant props == Parsed(pairs[..i])
      invariant warnings == InvalidTokens(pairs[..i])
    {
      var pair := pairs[i];
      ParsedStep(pairs, i);
      if !IsBlank(pair) {
        var splitIdx := IndexOf(pair, '=');
        if splitIdx > 0 {
          var key := pair[..splitIdx];
          var value := pair[splitIdx + 1..];
          props := props[key := value];
        } else {
          warnings := warnings + [pair];
        }
      }
    }
    assert pairs[..|pairs|] == pairs;
    r := Success(props);
  }

  /** The iteration order of a table's entry set, which `Properties` does not fix. */
  method IterationOrder(keys: set<string>) returns (order: seq<string>)
    ensures IsEnumeration(order, keys)
  {
    order := [];
    var rest := keys;
    while rest != {}
      invariant rest <= keys
      invariant forall i, j :: 0 <= i < j < |order| ==> order[i] != order[j]
      invariant forall k :: k in order <==> k in keys && k !in rest
      decreases |rest|
    {
      var k :| k in rest;
      order := order + [k];
      rest := rest - {k};
    }
  }

  /** The bytes `encrypt` writes for `props` when its entries are visited in `order`. */
  function EncryptedBytes(em: EncryptionManager, props: Accounts, order: seq<string>, password: string): seq<byte>
    requires Valid(em) && IsEnumeration(order, props.Keys)
  {
    CbcEncrypt(em.aes, GenerateKey(em, password), ZeroIv(), Pad(LoadPlainText(Some(props), order)))
  }

  /** `bytes` is what `encrypt` writes for `props` under `password`, in some iteration order. */
  ghost predicate EncryptsTo(em: EncryptionManager, props: Accounts, password: string, bytes: seq<byte>)
    requires Valid(em)
  {
    exists order :: IsEnumeration(order, props.Keys) && bytes == EncryptedBytes(em, props, order, password)
  }

  /** `encrypt`: serialises the table, encrypts it with the key of `password` and names the result `fileName`. */
  method Encrypt(em: EncryptionManager, privateContent: Accounts, password: string, fileName: string)
    returns (encrypted: FileProxy)
    requires Valid(em)
    ensures encrypted.path == fileName && encrypted.present
    ensures EncryptsTo(em, privateContent, password, encrypted.contents)
  {
    var cipher := BuildCipher(em, password, true);
    var order := IterationOrder(privateContent.Keys);
    var input := LoadPlainText(Some(privateContent), order);
    var outputBytes := PerformCryptographicOperation(cipher, input);
    EncryptionOutputIsExact(cipher, input);
    encrypted := FileProxy(fileName, true, outputBytes.value);
    assert encrypted.contents == EncryptedBytes(em, privateContent, order, password);
  }

  // ---------------------------------------------------------------- properties of the format

  /** A token `key=value` with a non-empty key free of `=` parses back to that key and value. */
  lemma ParseEntry(key: string, value: string)
    requires key != [] && '=' !in key
    ensures ParseToken(key + "=" + value) == Entry(key, value)
  {
    var t := key + "=" + value;
    assert t[|key|] == '=';
    assert !IsWhitespace(t[|key|]);
    assert t[..|key|] == key;
    assert forall i :: 0 <= i < |key| ==> t[i] == key[i];
    assert t[|key| + 1..] == value;
  }

  /** A later line for the same key overwrites the earlier one. */
  lemma LaterLineWins(tokens: seq<string>, key: string, value: string)
    requires key != [] && '=' !in key
    ensures Parsed(tokens + [key + "=" + value]) == Parsed(tokens)[key := value]
    ensures InvalidTokens(tokens + [key + "=" + value]) == InvalidTokens(tokens)
  {
    ParseEntry(key, value);
    assert (tokens + [key + "=" + value])[..|tokens|] == tokens;
  }

  /** Parsing one more token of a list: that token's effect on the prefix parsed so far. */
  lemma ParsedStep(tokens: seq<string>, i: nat)
    requires i < |tokens|
    ensures Parsed(tokens[..i + 1]) == Apply(Parsed(tokens[..i]), tokens[i])
    ensures InvalidTokens(tokens[..i + 1]) ==
              InvalidTokens(tokens[..i]) + (if ParseToken(tokens[i]).Invalid? then [tokens[i]] else [])
  {
    assert tokens[..i + 1][..i] == tokens[..i];
  }

  /** A blank token or one without a usable `=` leaves the table as it was. */
  lemma UnusableLineIgnored(tokens: seq<string>, t: string)
    requires !ParseToken(t).Entry?
    ensures Parsed(tokens + [t]) == Parsed(tokens)
    ensures InvalidTokens(tokens + [t]) == InvalidTokens(tokens) + (if IsBlank(t) then [] else [t])
  {
    var ts := tokens + [t];
    assert ParseToken(t).Invalid? <==> !IsBlank(t);
    ParsedStep(ts, |tokens|);
    assert ts[..|tokens|] == tokens && ts[..|tokens| + 1] == ts;
  }

  /** One well-formed line splits into its single token, which parses back to its entry. */
  lemma ParseLine(name: string, secret: string)
    requires name != [] && '=' !in name && '\n' !in name && '\n' !in secret
    ensures Split(Line(name, secret), '\n') == [name + "=" + secret]
    ensures ParseToken(name + "=" + secret) == Entry(name, secret)
  {
    var t := name + "=" + secret;
    assert '\n' !in t by {
      forall i | 0 <= i < |t| ensures t[i] != '\n' {
        if i < |name| { assert t[i] == name[i]; }
        else if i > |name| { assert t[i] == secret[i - |name| - 1]; }
      }
    }
    SplitToken(t, '\n', "");
    assert Line(name, secret) == t + ['\n'] + "";
    ParseEntry(name, secret);
  }

  /** The entries of `props` at the keys `order` visits. */
  function Restrict(props: Accounts, order: seq<string>): (r: Accounts)
    requires forall k :: k in order ==> k in props
    ensures forall k :: k in r <==> k in order
    ensures forall k :: k in r ==> r[k] == props[k]
  {
    map k | k in order :: props[k]
  }

  /** The lines `loadPlainText` writes parse back to the entries they came from, with no warnings. */
  lemma {:induction false} PlainTextParses(props: Accounts, order: seq<string>)
    requires WellFormed(props)
    requires forall k :: k in order ==> k in props
    ensures Parsed(Split(PlainText(props, order), '\n')) == Restrict(props, order)
    ensures InvalidTokens(Split(PlainText(props, order), '\n')) == []
  {
    if order == [] {
      PlainTextEmpty(props);
    } else {
      var prefix, x := order[..|order| - 1], order[|order| - 1];
      assert order == prefix + [x];
      PlainTextParses(props, prefix);
      PlainTextStep(props, prefix, x);
    }
  }

  /** No names: no text, no accounts. */
  lemma PlainTextEmpty(props: Accounts)
    ensures Parsed(Split(PlainText(props, []), '\n')) == Restrict(props, [])
    ensures InvalidTokens(Split(PlainText(props, []), '\n')) == []
  {
    assert Split("", '\n') == [];
    assert Restrict(props, []) == map[];
  }

  /** One more line: the tokens of the text gain that line's entry and no invalid token. */
  lemma PlainTextStep(props: Accounts, prefix: seq<string>, x: string)
    requires WellFormed(props) && x in props
    requires forall k :: k in prefix ==> k in props
    requires Parsed(Split(PlainText(props, prefix), '\n')) == Restrict(props, prefix)
    requires InvalidTokens(Split(PlainText(props, prefix), '\n')) == []
    ensures Parsed(Split(PlainText(props, prefix + [x]), '\n')) == Restrict(props, prefix + [x])
    ensures InvalidTokens(Split(PlainText(props, prefix + [x]), '\n')) == []
  {
    var order := prefix + [x];
    assert order[..|prefix|] == prefix;
    var head := PlainText(props, prefix);
    assert PlainText(props, order) == head + Line(x, props[x]);
    SplitAppend(head, Line(x, props[x]), '\n');
    ParseLine(x, props[x]);
    LaterLineWins(Split(head, '\n'), x, props[x]);
    RestrictSnoc(props, prefix, x);
  }

  /** Restricting to one more name adds that name's account. */
  lemma RestrictSnoc(props: Accounts, prefix: seq<string>, x: string)
    requires x in props && forall k :: k in prefix ==> k in props
    ensures Restrict(props, prefix + [x]) == Restrict(props, prefix)[x := props[x]]
  {
    var l, r := Restrict(props, prefix + [x]), Restrict(props, prefix)[x := props[x]];
    assert forall k :: k in prefix + [x] <==> k in prefix || k == x;
    assert l.Keys == r.Keys;
  }

  /** For an enumeration of all keys the restriction is the whole table. */
  lemma RestrictEnumeration(props: Accounts, order: seq<string>)
    requires IsEnumeration(order, props.Keys)
    ensures Restrict(props, order) == props
  {
  }

  /**
   * The zero bytes decryption leaves behind decode to one trailing token of NUL
   * characters after the last line break.
   */
  lemma SplitTrailingNuls(text: string, k: nat)
    requires text == [] || text[|text| - 1] == '\n'
    ensures Split(text + Utf8.Nuls(k), '\n') == Split(text, '\n') + (if k == 0 then [] else [Utf8.Nuls(k)])
  {
    SplitAppend(text, Utf8.Nuls(k), '\n');
    if k == 0 {
      assert Utf8.Nuls(k) == [];
      assert Split([], '\n') == [];
    } else {
      SplitSingle(Utf8.Nuls(k), '\n');
    }
  }

  /** A token of NUL characters is neither blank nor an entry: it is logged and ignored. */
  lemma NulTokenIsInvalid(k: nat)
    requires k > 0
    ensures ParseToken(Utf8.Nuls(k)) == Invalid
  {
    assert Utf8.Nuls(k)[0] == '\0';
    assert !IsWhitespace('\0');
  }

  /**
   * Round trip: whatever `encrypt` wrote for a well-formed table, `decrypt` with the same
   * password reads back exactly that table. Each read also logs exactly one invalid entry,
   * the run of NUL characters the zero-filled output array leaves after the last line.
   */
  lemma {:induction false} SaveLoadRoundTrip(em: EncryptionManager, props: Accounts, password: string, content: seq<byte>)
    requires Valid(em) && WellFormed(props)
    requires EncryptsTo(em, props, password, content)
    ensures DecryptedAccounts(em, content, password) == Success(props)
    ensures DecryptedText(em, content, password).Success?
    ensures var w := InvalidTokens(Split(DecryptedText(em, content, password).value, '\n'));
            |w| == 1 && 1 <= |w[0]| <= BlockSize && forall c :: c in w[0] ==> c == '\0'
  {
    var order :| IsEnumeration(order, props.Keys) && content == EncryptedBytes(em, props, order, password);
    var text := PlainText(props, order);
    var k := PadLength(|LoadPlainText(Some(props), order)|);
    DecryptsToPlainText(em, props, order, password);
    TextWithNulsParses(props, order, k);
    assert Utf8.Nuls(k)[0] == '\0';
  }

  /** What a saved file decrypts to: the plain text of the table, then the padding as NULs. */
  lemma DecryptsToPlainText(em: EncryptionManager, props: Accounts, order: seq<string>, password: string)
    requires Valid(em) && IsEnumeration(order, props.Keys)
    ensures DecryptedText(em, EncryptedBytes(em, props, order, password), password) ==
              Success(PlainText(props, order) + Utf8.Nuls(PadLength(|LoadPlainText(Some(props), order)|)))
  {
    var text := PlainText(props, order);
    var input := LoadPlainText(Some(props), order);
    assert input == Utf8.Encode(text);
    var k := PadLength(|input|);
    DecryptionOutputCarriesZeros(em, password, input);
    Utf8.DecodeEncodeThen(text, Zeros(k));
    Utf8.DecodeZeros(k);
  }

  /** The plain text of a table, followed by 1 to 16 NULs, parses back to the table with one warning. */
  lemma TextWithNulsParses(props: Accounts, order: seq<string>, k: nat)
    requires WellFormed(props) && IsEnumeration(order, props.Keys) && 0 < k
    requires forall k :: k in order ==> k in props
    ensures Parsed(Split(PlainText(props, order) + Utf8.Nuls(k), '\n')) == props
    ensures InvalidTokens(Split(PlainText(props, order) + Utf8.Nuls(k), '\n')) == [Utf8.Nuls(k)]
  {
    var text := PlainText(props, order);
    SplitTrailingNuls(text, k);
    var tokens := Split(text, '\n');
    PlainTextParses(props, order);
    NulTokenIsInvalid(k);
    UnusableLineIgnored(tokens, Utf8.Nuls(k));
    RestrictEnumeration(props, order);
  }

  /** Content that is empty or not a whole number of blocks is refused before any parsing. */
  lemma DecryptRejectsPartialBlock(em: EncryptionManager, content: seq<byte>, password: string)
    requires Valid(em)
    requires content == [] || |content| % 16 != 0
    ensures DecryptedAccounts(em, content, password) == Failure(LastBlockIncomplete)
  {
    assert Held(|content|) != BlockSize;
  }
}
