/** Secrets encrypted under a rotating keyring. */
module Keyring {
  import opened Wrappers
  import opened Words
  import opened Text
  import Base64

  const VERSION := "v1"
  const LEGACY := "legacy"

  datatype Ring = Ring(current: string, keys: map<string, string>)

  /** What the platform provides. `parseRing` answers with a ring when the text is JSON of version 1 with a
      text `current` and texts for keys, of whatever length. A cryptographic key is the digest of a text, so
      keys are named by that text here. */
  datatype Platform = Platform(
    stringify: Ring -> string,
    parseRing: string -> Option<Ring>,
    seal: (string, seq<byte>, string) -> seq<byte>,
    open: (string, seq<byte>, seq<byte>) -> Option<string>)
  {
    ghost predicate Lawful() {
      && (forall r :: parseRing(stringify(r)) == Some(r))
      && (forall k, iv, text :: open(k, iv, seal(k, iv, text)) == Some(text))
      && (forall k, iv, text :: seal(k, iv, text) != [])
    }

    /** The text of a ring is longer than any key in it. */
    ghost predicate Containing() {
      forall r: Ring, id :: id in r.keys ==> |r.keys[id]| < |stringify(r)|
    }

    /** Authenticated encryption refuses every other key. */
    ghost predicate Authentic() {
      forall k, k', iv, text :: k != k' ==> open(k', iv, seal(k, iv, text)) == None
    }
  }

  datatype Refusal = KeyUnavailable | InvalidSecret | NotDecrypted

  function RawKey(value: string): Result<Ring, Refusal> {
    if |value| < 16 then Failure(KeyUnavailable) else Success(Ring(LEGACY, map[LEGACY := value]))
  }

  predicate LongKeys(ring: Ring) {
    forall id :: id in ring.keys ==> |ring.keys[id]| >= 32
  }

  /** A ring in JSON is accepted when it names a present current key and every key has 32 characters or more;
      any other text of 16 characters or more is one raw key. */
  function ParseKeyring(p: Platform, value: string): Result<Ring, Refusal> {
    match p.parseRing(value)
    case Some(ring) => if LongKeys(ring) && ring.current in ring.keys then Success(ring) else RawKey(value)
    case None => RawKey(value)
  }

  function KeyText(material: string, purpose: string): string {
    "gmshop:" + purpose + "\0" + material
  }

  function Envelope(keyId: string, iv: seq<byte>, sealed: seq<byte>): string {
    Join([VERSION, keyId, Base64.Encode(iv), Base64.Encode(sealed)], '.')
  }

  function EncryptSecret(p: Platform, value: string, keyring: string, purpose: string, iv: seq<byte>)
    : Result<string, Refusal>
  {
    match ParseKeyring(p, keyring)
    case Failure(e) => Failure(e)
    case Success(ring) =>
      var material := ring.keys[ring.current];
      if material == "" then Failure(KeyUnavailable)
      else Success(Envelope(ring.current, iv, p.seal(KeyText(material, purpose), iv, value)))
  }

  predicate IsVersioned(parts: seq<string>) {
    |parts| == 4 && parts[0] == VERSION
  }

  function Opened(p: Platform, key: string, iv: string, sealed: string): Result<string, Refusal> {
    match (Base64.Decode(iv), Base64.Decode(sealed))
    case (Some(nonce), Some(bytes)) =>
      (match p.open(key, nonce, bytes)
       case Some(text) => Success(text)
       case None => Failure(NotDecrypted))
    case _ => Failure(NotDecrypted)
  }

  function DecryptSecret(p: Platform, value: string, keyring: string, purpose: string): Result<string, Refusal> {
    var parts := Split(value, '.');
    var versioned := IsVersioned(parts);
    var keyId := if versioned then parts[1] else LEGACY;
    var iv := if versioned then parts[2] else parts[0];
    var sealed := if versioned then parts[3] else if |parts| > 1 then parts[1] else "";
    if keyId == "" || iv == "" || sealed == "" then Failure(InvalidSecret)
    else
      match ParseKeyring(p, keyring)
      case Failure(e) => Failure(e)
      case Success(ring) =>
        if keyId !in ring.keys || ring.keys[keyId] == "" then Failure(KeyUnavailable)
        else
          var material := ring.keys[keyId];
          Opened(p, if versioned then KeyText(material, purpose) else material, iv, sealed)
  }

  /** The number in an identifier of the form k7, and 0 for any other. */
  function KeyVersion(id: string): nat {
    if |id| >= 2 && id[0] == 'k' && AllDigits(id[1..]) then Value(id[1..]) else 0
  }

  ghost function MaxVersion(ids: set<string>): (m: nat)
    ensures forall id :: id in ids ==> KeyVersion(id) <= m
    ensures m == 0 || exists id :: id in ids && KeyVersion(id) == m
  {
    if ids == {} then 0
    else
      var id :| id in ids;
      var rest := MaxVersion(ids - {id});
      assert forall i :: i in ids ==> i == id || i in ids - {id};
      if KeyVersion(id) > rest then KeyVersion(id) else rest
  }

  ghost function NextKeyId(ring: Ring): string {
    "k" + Print(MaxVersion(ring.keys.Keys) + 1)
  }

  ghost function Rotated(ring: Ring, material: string): Ring {
    Ring(NextKeyId(ring), ring.keys[NextKeyId(ring) := material])
  }

  ghost function RotateKeyring(p: Platform, keyring: string, material: string): Result<string, Refusal> {
    match ParseKeyring(p, keyring)
    case Failure(e) => Failure(e)
    case Success(ring) => Success(p.stringify(Rotated(ring, material)))
  }

  function CreateKeyring(p: Platform, material: string): string {
    p.stringify(Ring("k1", map["k1" := material]))
  }

  /** Nothing when the envelope already names the current key. */
  function ReencryptSecret(p: Platform, value: string, keyring: string, purpose: string, iv: seq<byte>)
    : Result<Option<string>, Refusal>
  {
    match ParseKeyring(p, keyring)
    case Failure(e) => Failure(e)
    case Success(ring) =>
      var parts := Split(value, '.');
      if IsVersioned(parts) && parts[1] == ring.current then Success(None)
      else
        match DecryptSecret(p, value, keyring, purpose)
        case Failure(e) => Failure(e)
        case Success(text) =>
          match EncryptSecret(p, text, keyring, purpose, iv)
          case Failure(e) => Failure(e)
          case Success(envelope) => Success(Some(envelope))
  }

  // ---------- runs ----------

  /** Every envelope ever written, with what it was written for. */
  datatype Sealed = Sealed(envelope: string, purpose: string, text: string)

  datatype State = State(keyring: string, written: seq<Sealed>)

  /** The random choices are part of a step: 64 characters of key material, 12 bytes of nonce. */
  datatype Step =
    | Rotate(material: string)
    | Encrypt(text: string, purpose: string, iv: seq<byte>)
    | Reencrypt(index: nat, iv: seq<byte>)
  {
    predicate WellFormed() {
      match this
      case Rotate(material) => |material| == 64
      case Encrypt(_, _, iv) => |iv| == 12
      case Reencrypt(_, iv) => |iv| == 12
    }
  }

  /** An operation that is refused changes nothing; re-encryption keeps the old envelope in the record. */
  ghost function Next(p: Platform, s: State, step: Step): State {
    match step
    case Rotate(material) =>
      (match RotateKeyring(p, s.keyring, material)
       case Success(keyring) => s.(keyring := keyring)
       case Failure(_) => s)
    case Encrypt(text, purpose, iv) =>
      (match EncryptSecret(p, text, s.keyring, purpose, iv)
       case Success(envelope) => s.(written := s.written + [Sealed(envelope, purpose, text)])
       case Failure(_) => s)
    case Reencrypt(index, iv) =>
      if index >= |s.written| then s
      else
        var was := s.written[index];
        match ReencryptSecret(p, was.envelope, s.keyring, was.purpose, iv)
        case Success(Some(envelope)) => s.(written := s.written + [Sealed(envelope, was.purpose, was.text)])
        case Success(None) => s
        case Failure(_) => s
  }

  ghost function Run(p: Platform, s: State, steps: seq<Step>): State
    decreases |steps|
  {
    if steps == [] then s else Run(p, Next(p, s, steps[0]), steps[1..])
  }

  /** A ring whose envelopes can be told apart: identifiers fit between dots, and no key is short. */
  ghost predicate Sound(ring: Ring) {
    && ring.current in ring.keys && LongKeys(ring)
    && forall id :: id in ring.keys ==> id != "" && '.' !in id
  }

  ghost predicate Readable(p: Platform, keyring: string, e: Sealed) {
    DecryptSecret(p, e.envelope, keyring, e.purpose) == Success(e.text)
  }

  ghost predicate Healthy(p: Platform, s: State) {
    && ParseKeyring(p, s.keyring).Success? && Sound(ParseKeyring(p, s.keyring).value)
    && forall e :: e in s.written ==> Readable(p, s.keyring, e)
  }

  // ---------- envelopes ----------

  lemma Base64HasNoDot(b: seq<byte>)
    ensures '.' !in Base64.Encode(b)
    ensures b != [] ==> Base64.Encode(b) != ""
  {
    Base64.EncodeIsPadded(b);
    Base64.LettersLength(b);
    var s := Base64.Letters(b);
    hide Base64.Letters, Base64.Encode, Base64.PaddingFor;
    forall i | 0 <= i < |Base64.Encode(b)|
      ensures Base64.Encode(b)[i] != '.'
    {
      assert i < |s| ==> Base64.IsLetter(s[i]);
    }
  }

  lemma EnvelopeParts(keyId: string, iv: seq<byte>, sealed: seq<byte>)
    requires '.' !in keyId
    ensures Split(Envelope(keyId, iv, sealed), '.') == [VERSION, keyId, Base64.Encode(iv), Base64.Encode(sealed)]
  {
    Base64HasNoDot(iv);
    Base64HasNoDot(sealed);
    var parts := [VERSION, keyId, Base64.Encode(iv), Base64.Encode(sealed)];
    forall part | part in parts
      ensures '.' !in part
    {
    }
    SplitJoin(parts, '.');
  }

  /** What was encrypted under a sound ring decrypts to the same text. */
  lemma EncryptedIsReadable(p: Platform, text: string, keyring: string, purpose: string, iv: seq<byte>)
    requires p.Lawful() && iv != []
    requires ParseKeyring(p, keyring).Success? && Sound(ParseKeyring(p, keyring).value)
    ensures var e := EncryptSecret(p, text, keyring, purpose, iv);
            e.Success? && DecryptSecret(p, e.value, keyring, purpose) == Success(text)
  {
    var ring := ParseKeyring(p, keyring).value;
    var material := ring.keys[ring.current];
    assert |material| >= 32;
    var bytes := p.seal(KeyText(material, purpose), iv, text);
    EnvelopeParts(ring.current, iv, bytes);
    Base64HasNoDot(iv);
    Base64HasNoDot(bytes);
    Base64.DecodeOfEncode(iv);
    Base64.DecodeOfEncode(bytes);
    hide Base64.Encode, Base64.Decode, ParseKeyring, KeyText, Split, Envelope;
  }

  /** A ring that has all the keys of another opens whatever the other opens. */
  lemma MoreKeysOpenMore(p: Platform, envelope: string, purpose: string, k1: string, k2: string)
    requires ParseKeyring(p, k1).Success? && ParseKeyring(p, k2).Success?
    requires var r1, r2 := ParseKeyring(p, k1).value, ParseKeyring(p, k2).value;
             forall id :: id in r1.keys ==> id in r2.keys && r2.keys[id] == r1.keys[id]
    requires DecryptSecret(p, envelope, k1, purpose).Success?
    ensures DecryptSecret(p, envelope, k2, purpose) == DecryptSecret(p, envelope, k1, purpose)
  {
    hide Opened, KeyText, Split, ParseKeyring;
  }

  /** The stored form: version, name of the key, nonce and sealed text, the key being derived from the purpose and the
      material. */
  lemma StoredForm(p: Platform, text: string, keyring: string, purpose: string, iv: seq<byte>, ring: Ring)
    requires ParseKeyring(p, keyring) == Success(ring) && ring.keys[ring.current] != ""
    ensures var sealed := p.seal("gmshop:" + purpose + "\0" + ring.keys[ring.current], iv, text);
            EncryptSecret(p, text, keyring, purpose, iv)
            == Success("v1" + "." + ring.current + "." + Base64.Encode(iv) + "." + Base64.Encode(sealed))
  {
    var material := ring.keys[ring.current];
    var sealed := p.seal(KeyText(material, purpose), iv, text);
    var a, b := Base64.Encode(iv), Base64.Encode(sealed);
    hide Base64.Encode, ParseKeyring;
    JoinFour(VERSION, ring.current, a, b);
    assert VERSION + ['.'] + (ring.current + ['.'] + (a + ['.'] + b))
        == VERSION + "." + ring.current + "." + a + "." + b;
  }

  // ---------- rotation ----------

  lemma VersionOfNumbered(n: nat)
    ensures KeyVersion("k" + Print(n)) == n
    ensures '.' !in "k" + Print(n)
  {
    ValueOfPrint(n);
    assert ("k" + Print(n))[1..] == Print(n);
  }

  /** The identifier that a rotation chooses is not yet in use. */
  lemma NextKeyIdIsFresh(ring: Ring)
    ensures NextKeyId(ring) !in ring.keys
  {
    VersionOfNumbered(MaxVersion(ring.keys.Keys) + 1);
  }

  /** After a rotation the program reads back the old keys and the new current one exactly when
      every old key has 32 characters or more. */
  lemma RotationKeepsRing(p: Platform, keyring: string, material: string)
    requires p.Lawful() && |material| == 64 && ParseKeyring(p, keyring).Success?
    ensures var ring := ParseKeyring(p, keyring).value;
            var after := RotateKeyring(p, keyring, material);
            after.Success?
            && (ParseKeyring(p, after.value) == Success(Rotated(ring, material)) <==> LongKeys(ring))
  {
    var ring := ParseKeyring(p, keyring).value;
    var next := Rotated(ring, material);
    NextKeyIdIsFresh(ring);
    hide NextKeyId;
    forall id | id in ring.keys
      ensures id in next.keys && next.keys[id] == ring.keys[id]
    {
    }
    assert next.current in next.keys && next.keys[next.current] == material;
    if !LongKeys(ring) {
      var id :| id in ring.keys && |ring.keys[id]| < 32;
      assert |next.keys[id]| < 32;
      CurrentIsNotLegacy(ring);
    }
  }

  lemma CurrentIsNotLegacy(ring: Ring)
    ensures NextKeyId(ring) != LEGACY
  {
    assert NextKeyId(ring)[0] == 'k' && LEGACY[0] == 'l';
  }

  lemma RotationIsSound(ring: Ring, material: string)
    requires Sound(ring) && |material| == 64
    ensures Sound(Rotated(ring, material))
  {
    VersionOfNumbered(MaxVersion(ring.keys.Keys) + 1);
    hide KeyVersion;
  }

  // ---------- every envelope stays readable ----------

  lemma RotateKeepsHealth(p: Platform, s: State, material: string)
    requires p.Lawful() && Healthy(p, s) && |material| == 64
    ensures Healthy(p, Next(p, s, Rotate(material)))
  {
    var ring := ParseKeyring(p, s.keyring).value;
    var t := Next(p, s, Rotate(material));
    RotationKeepsRing(p, s.keyring, material);
    RotationIsSound(ring, material);
    NextKeyIdIsFresh(ring);
    hide NextKeyId, ParseKeyring, DecryptSecret, Sound;
    forall e | e in t.written
      ensures Readable(p, t.keyring, e)
    {
      MoreKeysOpenMore(p, e.envelope, e.purpose, s.keyring, t.keyring);
    }
  }

  lemma EncryptKeepsHealth(p: Platform, s: State, text: string, purpose: string, iv: seq<byte>)
    requires p.Lawful() && Healthy(p, s) && |iv| == 12
    ensures Healthy(p, Next(p, s, Encrypt(text, purpose, iv)))
  {
    hide ParseKeyring, DecryptSecret, EncryptSecret, Sound;
    EncryptedIsReadable(p, text, s.keyring, purpose, iv);
  }

  lemma ReencryptKeepsHealth(p: Platform, s: State, index: nat, iv: seq<byte>)
    requires p.Lawful() && Healthy(p, s) && |iv| == 12
    ensures Healthy(p, Next(p, s, Reencrypt(index, iv)))
  {
    hide ParseKeyring, DecryptSecret, EncryptSecret, Sound, Split;
    if index < |s.written| {
      var was := s.written[index];
      assert Readable(p, s.keyring, was);
      EncryptedIsReadable(p, was.text, s.keyring, was.purpose, iv);
    }
  }

  /** Over any run of rotations, encryptions and re-encryptions, every envelope ever written
      still decrypts to its original text. */
  lemma {:induction false} RunKeepsSecretsReadable(p: Platform, s: State, steps: seq<Step>)
    requires p.Lawful() && Healthy(p, s)
    requires forall step :: step in steps ==> step.WellFormed()
    ensures Healthy(p, Run(p, s, steps))
    ensures s.written <= Run(p, s, steps).written
    decreases |steps|
  {
    if steps != [] {
      hide Healthy;
      assert steps[0] in steps;
      match steps[0] {
        case Rotate(material) => RotateKeepsHealth(p, s, material);
        case Encrypt(text, purpose, iv) => EncryptKeepsHealth(p, s, text, purpose, iv);
        case Reencrypt(index, iv) => ReencryptKeepsHealth(p, s, index, iv);
      }
      NextOnlyAdds(p, s, steps[0]);
      RunKeepsSecretsReadable(p, Next(p, s, steps[0]), steps[1..]);
    }
  }

  lemma NextOnlyAdds(p: Platform, s: State, step: Step)
    ensures s.written <= Next(p, s, step).written
  {
  }

  // ---------- purposes are kept apart ----------

  lemma PurposeTextsDiffer(material: string, purpose: string, other: string)
    requires purpose != other
    ensures KeyText(material, purpose) != KeyText(material, other)
  {
    var a, b := KeyText(material, purpose), KeyText(material, other);
    assert a[7..7 + |purpose|] == purpose && |a| == 7 + |purpose| + 1 + |material|;
    assert b[7..7 + |other|] == other && |b| == 7 + |other| + 1 + |material|;
  }

  /** What was encrypted for one purpose is refused for every other. */
  lemma OtherPurposeRefused(p: Platform, text: string, keyring: string, purpose: string, other: string, iv: seq<byte>)
    requires p.Lawful() && p.Authentic() && iv != [] && purpose != other
    requires ParseKeyring(p, keyring).Success? && Sound(ParseKeyring(p, keyring).value)
    ensures var e := EncryptSecret(p, text, keyring, purpose, iv);
            e.Success? && DecryptSecret(p, e.value, keyring, other) == Failure(NotDecrypted)
  {
    var ring := ParseKeyring(p, keyring).value;
    var material := ring.keys[ring.current];
    assert |material| >= 32;
    var bytes := p.seal(KeyText(material, purpose), iv, text);
    EnvelopeParts(ring.current, iv, bytes);
    Base64HasNoDot(iv);
    Base64HasNoDot(bytes);
    Base64.DecodeOfEncode(iv);
    Base64.DecodeOfEncode(bytes);
    PurposeTextsDiffer(material, purpose, other);
    hide Base64.Encode, Base64.Decode, ParseKeyring, KeyText, Split, Envelope;
  }

  /** A larger ring refuses what a smaller one could not decrypt although it has the key. */
  lemma MoreKeysRefuseToo(p: Platform, envelope: string, purpose: string, k1: string, k2: string)
    requires ParseKeyring(p, k1).Success? && ParseKeyring(p, k2).Success?
    requires var r1, r2 := ParseKeyring(p, k1).value, ParseKeyring(p, k2).value;
             forall id :: id in r1.keys ==> id in r2.keys && r2.keys[id] == r1.keys[id]
    requires DecryptSecret(p, envelope, k1, purpose) == Failure(NotDecrypted)
    ensures DecryptSecret(p, envelope, k2, purpose) == Failure(NotDecrypted)
  {
    hide Opened, KeyText, Split, ParseKeyring;
  }

  /** The envelope is refused for every purpose but its own. */
  ghost predicate Confined(p: Platform, keyring: string, e: Sealed) {
    forall other :: other != e.purpose ==> DecryptSecret(p, e.envelope, keyring, other) == Failure(NotDecrypted)
  }

  ghost predicate ConfinedFrom(p: Platform, s: State, from: nat) {
    forall i :: from <= i < |s.written| ==> Confined(p, s.keyring, s.written[i])
  }

  lemma EncryptedIsConfined(p: Platform, s: State, e: Sealed, iv: seq<byte>)
    requires p.Lawful() && p.Authentic() && iv != [] && Healthy(p, s)
    requires EncryptSecret(p, e.text, s.keyring, e.purpose, iv) == Success(e.envelope)
    ensures Confined(p, s.keyring, e)
  {
    hide DecryptSecret, EncryptSecret, ParseKeyring, Sound;
    forall other | other != e.purpose
      ensures DecryptSecret(p, e.envelope, s.keyring, other) == Failure(NotDecrypted)
    {
      OtherPurposeRefused(p, e.text, s.keyring, e.purpose, other, iv);
    }
  }

  lemma RotateKeepsConfined(p: Platform, s: State, material: string, e: Sealed)
    requires p.Lawful() && Healthy(p, s) && |material| == 64 && Confined(p, s.keyring, e)
    ensures Confined(p, Next(p, s, Rotate(material)).keyring, e)
  {
    var t := Next(p, s, Rotate(material));
    RotationKeepsRing(p, s.keyring, material);
    NextKeyIdIsFresh(ParseKeyring(p, s.keyring).value);
    hide NextKeyId, ParseKeyring, DecryptSecret, Sound;
    forall other | other != e.purpose
      ensures DecryptSecret(p, e.envelope, t.keyring, other) == Failure(NotDecrypted)
    {
      MoreKeysRefuseToo(p, e.envelope, other, s.keyring, t.keyring);
    }
  }

  lemma StepKeepsConfined(p: Platform, s: State, step: Step, from: nat)
    requires p.Lawful() && p.Authentic() && Healthy(p, s) && step.WellFormed() && ConfinedFrom(p, s, from)
    ensures ConfinedFrom(p, Next(p, s, step), from)
  {
    hide Confined, ParseKeyring, DecryptSecret, EncryptSecret, Sound, Split, RotateKeyring;
    var t := Next(p, s, step);
    match step
    case Rotate(material) =>
      forall i | from <= i < |t.written|
        ensures Confined(p, t.keyring, t.written[i])
      {
        RotateKeepsConfined(p, s, material, s.written[i]);
      }
    case Encrypt(text, purpose, iv) =>
      if t != s {
        EncryptedIsConfined(p, s, t.written[|s.written|], iv);
      }
    case Reencrypt(index, iv) =>
      if t != s {
        assert Readable(p, s.keyring, s.written[index]);
        EncryptedIsConfined(p, s, t.written[|s.written|], iv);
      }
  }

  /** Over any run, whatever the run writes for one purpose is refused for every other, and stays so. */
  lemma {:induction false} RunKeepsPurposesApart(p: Platform, s: State, steps: seq<Step>, from: nat)
    requires p.Lawful() && p.Authentic() && Healthy(p, s) && ConfinedFrom(p, s, from)
    requires forall step :: step in steps ==> step.WellFormed()
    ensures ConfinedFrom(p, Run(p, s, steps), from)
    decreases |steps|
  {
    if steps != [] {
      hide Healthy, ConfinedFrom;
      assert steps[0] in steps;
      StepKeepsConfined(p, s, steps[0], from);
      RunKeepsSecretsReadable(p, s, [steps[0]]);
      assert Run(p, s, [steps[0]]) == Next(p, s, steps[0]) by {
        assert [steps[0]][1..] == [];
      }
      RunKeepsPurposesApart(p, Next(p, s, steps[0]), steps[1..], from);
    }
  }

  // ---------- where runs start ----------

  lemma CreatedRingIsHealthy(p: Platform, material: string)
    requires p.Lawful() && |material| == 64
    ensures Healthy(p, State(CreateKeyring(p, material), []))
  {
  }

  /** What installations stored before keyrings: two parts, sealed under the raw key itself. */
  function LegacyEnvelope(p: Platform, rawKey: string, iv: seq<byte>, text: string): string {
    Join([Base64.Encode(iv), Base64.Encode(p.seal(rawKey, iv, text))], '.')
  }

  lemma LegacyParts(iv: seq<byte>, sealed: seq<byte>)
    requires iv != [] && sealed != []
    ensures var parts := Split(Join([Base64.Encode(iv), Base64.Encode(sealed)], '.'), '.');
            parts == [Base64.Encode(iv), Base64.Encode(sealed)] && parts[0] != "" && parts[1] != ""
  {
    Base64HasNoDot(iv);
    Base64HasNoDot(sealed);
    SplitJoin([Base64.Encode(iv), Base64.Encode(sealed)], '.');
  }

  /** What a legacy envelope decrypts to depends only on the key named "legacy". */
  lemma LegacyDecryption(p: Platform, rawKey: string, iv: seq<byte>, text: string, keyring: string, purpose: string)
    requires p.Lawful() && iv != [] && ParseKeyring(p, keyring).Success?
    ensures var ring := ParseKeyring(p, keyring).value;
            DecryptSecret(p, LegacyEnvelope(p, rawKey, iv, text), keyring, purpose)
            == if LEGACY !in ring.keys || ring.keys[LEGACY] == "" then Failure(KeyUnavailable)
               else match p.open(ring.keys[LEGACY], iv, p.seal(rawKey, iv, text))
                    case Some(clear) => Success(clear)
                    case None => Failure(NotDecrypted)
  {
    var sealed := p.seal(rawKey, iv, text);
    LegacyParts(iv, sealed);
    Base64.DecodeOfEncode(iv);
    Base64.DecodeOfEncode(sealed);
    hide Base64.Encode, Base64.Decode, ParseKeyring, KeyText, Split, Join;
  }

  /** The text is accepted, and taken for one raw key. */
  ghost predicate IsRawKey(p: Platform, value: string) {
    |value| >= 16 && ParseKeyring(p, value) == RawKey(value)
  }

  ghost predicate IsLegacy(p: Platform, rawKey: string, e: Sealed) {
    exists iv :: iv != [] && e.envelope == LegacyEnvelope(p, rawKey, iv, e.text)
  }

  lemma LegacyIsReadable(p: Platform, rawKey: string, e: Sealed)
    requires p.Lawful() && IsRawKey(p, rawKey) && IsLegacy(p, rawKey, e)
    ensures Readable(p, rawKey, e)
  {
    var iv :| iv != [] && e.envelope == LegacyEnvelope(p, rawKey, iv, e.text);
    hide DecryptSecret, LegacyEnvelope;
    LegacyDecryption(p, rawKey, iv, e.text, rawKey, e.purpose);
  }

  /** An installation with a raw key of 32 characters or more, and any legacy secrets, can start a run. */
  lemma LegacyStartIsHealthy(p: Platform, rawKey: string, written: seq<Sealed>)
    requires p.Lawful() && IsRawKey(p, rawKey) && |rawKey| >= 32
    requires forall e :: e in written ==> IsLegacy(p, rawKey, e)
    ensures Healthy(p, State(rawKey, written))
  {
    hide Readable, IsLegacy;
    forall e | e in written
      ensures Readable(p, rawKey, e)
    {
      LegacyIsReadable(p, rawKey, e);
    }
    assert '.' !in LEGACY;
  }

  /** What a versioned envelope decrypts to depends only on the key it names. */
  lemma VersionedDecryption(p: Platform, keyId: string, material: string, iv: seq<byte>, text: string, keyring: string,
                            purpose: string)
    requires p.Lawful() && iv != [] && ParseKeyring(p, keyring).Success?
    requires keyId != "" && '.' !in keyId
    ensures var ring := ParseKeyring(p, keyring).value;
            var sealed := p.seal(KeyText(material, purpose), iv, text);
            DecryptSecret(p, Envelope(keyId, iv, sealed), keyring, purpose)
            == if keyId !in ring.keys || ring.keys[keyId] == "" then Failure(KeyUnavailable)
               else match p.open(KeyText(ring.keys[keyId], purpose), iv, sealed)
                    case Some(clear) => Success(clear)
                    case None => Failure(NotDecrypted)
  {
    var sealed := p.seal(KeyText(material, purpose), iv, text);
    EnvelopeParts(keyId, iv, sealed);
    Base64HasNoDot(iv);
    Base64HasNoDot(sealed);
    Base64.DecodeOfEncode(iv);
    Base64.DecodeOfEncode(sealed);
    hide Base64.Encode, Base64.Decode, ParseKeyring, KeyText, Split, Envelope;
  }

  lemma KeyTextsDiffer(a: string, b: string, purpose: string)
    requires a != b
    ensures KeyText(a, purpose) != KeyText(b, purpose)
  {
    var front := "gmshop:" + purpose + "\0";
    assert (front + a)[|front|..] == a && (front + b)[|front|..] == b;
  }

  /** A rotated ring with a short key is read back as one raw key: its own JSON text. */
  lemma ShortKeyReplaced(p: Platform, ring: Ring, material: string)
    requires p.Lawful() && !LongKeys(ring)
    ensures ParseKeyring(p, p.stringify(Rotated(ring, material))) == RawKey(p.stringify(Rotated(ring, material)))
  {
    NextKeyIdIsFresh(ring);
    hide NextKeyId;
    var id :| id in ring.keys && |ring.keys[id]| < 32;
    assert id in Rotated(ring, material).keys && |Rotated(ring, material).keys[id]| < 32;
  }

  // ---------- away from a raw key ----------

  /** What was sealed while the installation had this raw key, in either form. */
  ghost predicate WrittenUnder(p: Platform, rawKey: string, e: Sealed) {
    IsLegacy(p, rawKey, e) || IsEncrypted(p, rawKey, e)
  }

  ghost predicate IsEncrypted(p: Platform, rawKey: string, e: Sealed) {
    exists iv :: iv != [] && EncryptSecret(p, e.text, rawKey, e.purpose, iv) == Success(e.envelope)
  }

  /** A ring without short keys that knows this text by the name "legacy". */
  ghost predicate HoldsLegacy(p: Platform, keyring: string, key: string) {
    && ParseKeyring(p, keyring).Success?
    && var ring := ParseKeyring(p, keyring).value;
       LEGACY in ring.keys && ring.keys[LEGACY] == key && key != ""
  }

  ghost predicate KeepsLegacy(p: Platform, keyring: string, key: string) {
    HoldsLegacy(p, keyring, key) && LongKeys(ParseKeyring(p, keyring).value)
  }

  /** What was written under a raw key is readable exactly while the ring knows that key as "legacy". */
  lemma ReadableWhileHeld(p: Platform, rawKey: string, e: Sealed, keyring: string, key: string)
    requires p.Lawful() && p.Authentic() && IsRawKey(p, rawKey) && WrittenUnder(p, rawKey, e)
    requires HoldsLegacy(p, keyring, key)
    ensures Readable(p, keyring, e) <==> key == rawKey
  {
    if IsLegacy(p, rawKey, e) {
      var iv :| iv != [] && e.envelope == LegacyEnvelope(p, rawKey, iv, e.text);
      hide DecryptSecret, LegacyEnvelope, ParseKeyring;
      LegacyDecryption(p, rawKey, iv, e.text, keyring, e.purpose);
    } else {
      var iv :| iv != [] && EncryptSecret(p, e.text, rawKey, e.purpose, iv) == Success(e.envelope);
      assert LEGACY != "" && '.' !in LEGACY;
      assert e.envelope == Envelope(LEGACY, iv, p.seal(KeyText(rawKey, e.purpose), iv, e.text));
      hide DecryptSecret, Envelope, ParseKeyring, EncryptSecret, KeyText;
      VersionedDecryption(p, LEGACY, rawKey, iv, e.text, keyring, e.purpose);
      if key != rawKey {
        KeyTextsDiffer(rawKey, key, e.purpose);
      }
    }
  }

  /** The first rotation: a long raw key is kept; a short one is replaced by the text of the rotated ring, which is
      long. */
  lemma FirstRotation(p: Platform, rawKey: string, material: string)
    requires p.Lawful() && p.Containing() && IsRawKey(p, rawKey) && |material| == 64
    ensures var after := RotateKeyring(p, rawKey, material);
            && after.Success? && after.value != rawKey
            && KeepsLegacy(p, after.value, if |rawKey| >= 32 then rawKey else after.value)
  {
    var ring := ParseKeyring(p, rawKey).value;
    var after := RotateKeyring(p, rawKey, material).value;
    RotationKeepsRing(p, rawKey, material);
    NextKeyIdIsFresh(ring);
    assert ring.keys[LEGACY] == rawKey;
    assert LongKeys(ring) <==> |rawKey| >= 32;
    var next := Rotated(ring, material);
    hide NextKeyId;
    assert LEGACY in next.keys && next.keys[LEGACY] == rawKey;
    assert next.current in next.keys && next.keys[next.current] == material;
    if |rawKey| < 32 {
      ShortKeyReplaced(p, ring, material);
    }
  }

  /** From then on nothing changes the key named "legacy". */
  lemma {:induction false} LegacyKeyStays(p: Platform, s: State, steps: seq<Step>, key: string)
    requires p.Lawful() && KeepsLegacy(p, s.keyring, key)
    requires forall step :: step in steps ==> step.WellFormed()
    ensures KeepsLegacy(p, Run(p, s, steps).keyring, key)
    decreases |steps|
  {
    if steps != [] {
      hide KeepsLegacy;
      assert steps[0] in steps;
      StepKeepsLegacy(p, s, steps[0], key);
      LegacyKeyStays(p, Next(p, s, steps[0]), steps[1..], key);
    }
  }

  lemma StepKeepsLegacy(p: Platform, s: State, step: Step, key: string)
    requires p.Lawful() && KeepsLegacy(p, s.keyring, key) && step.WellFormed()
    ensures KeepsLegacy(p, Next(p, s, step).keyring, key)
  {
    match step
    case Rotate(material) =>
      var ring := ParseKeyring(p, s.keyring).value;
      RotationKeepsRing(p, s.keyring, material);
      NextKeyIdIsFresh(ring);
      CurrentIsNotLegacy(ring);
      hide NextKeyId, ParseKeyring;
    case Encrypt(_, _, _) =>
    case Reencrypt(_, _) =>
  }

  ghost predicate AllWrittenUnder(p: Platform, rawKey: string, written: seq<Sealed>) {
    forall e :: e in written ==> WrittenUnder(p, rawKey, e)
  }

  /** Before the first rotation everything is written under the raw key. */
  lemma {:induction false} BeforeRotation(p: Platform, rawKey: string, written: seq<Sealed>, steps: seq<Step>)
    requires p.Lawful() && p.Authentic() && IsRawKey(p, rawKey) && AllWrittenUnder(p, rawKey, written)
    requires forall step :: step in steps ==> step.WellFormed() && !step.Rotate?
    ensures var s := Run(p, State(rawKey, written), steps);
            s.keyring == rawKey && AllWrittenUnder(p, rawKey, s.written)
    decreases |steps|
  {
    if steps != [] {
      assert steps[0] in steps;
      hide AllWrittenUnder;
      BeforeRotationStep(p, rawKey, written, steps[0]);
      BeforeRotation(p, rawKey, Next(p, State(rawKey, written), steps[0]).written, steps[1..]);
    }
  }

  lemma BeforeRotationStep(p: Platform, rawKey: string, written: seq<Sealed>, step: Step)
    requires p.Lawful() && p.Authentic() && IsRawKey(p, rawKey) && AllWrittenUnder(p, rawKey, written)
    requires step.WellFormed() && !step.Rotate?
    ensures var s := Next(p, State(rawKey, written), step);
            s == State(rawKey, s.written) && AllWrittenUnder(p, rawKey, s.written)
  {
    assert HoldsLegacy(p, rawKey, rawKey);
    hide DecryptSecret, EncryptSecret, ParseKeyring, IsLegacy, Split, HoldsLegacy;
    match step
    case Encrypt(text, purpose, iv) =>
      var envelope := EncryptSecret(p, text, rawKey, purpose, iv);
      assert envelope.Success? ==> IsEncrypted(p, rawKey, Sealed(envelope.value, purpose, text));
    case Reencrypt(index, iv) =>
      if index < |written| {
        var was := written[index];
        ReadableWhileHeld(p, rawKey, was, rawKey, rawKey);
        var envelope := EncryptSecret(p, was.text, rawKey, was.purpose, iv);
        assert envelope.Success? ==> IsEncrypted(p, rawKey, Sealed(envelope.value, was.purpose, was.text));
      }
  }

  /** Over any run from any accepted raw key: what was written before the first rotation is readable until then, and
      after it, over the rest of the run, exactly when that key has 32 characters or more. The program accepts raw keys
      from 16 characters on; with 16 to 31 the rotated ring is read back as one raw key, and everything is lost. */
  lemma RawKeyRun(p: Platform, rawKey: string, written: seq<Sealed>, before: seq<Step>, material: string,
                  later: seq<Step>)
    requires p.Lawful() && p.Authentic() && p.Containing() && IsRawKey(p, rawKey) && |material| == 64
    requires AllWrittenUnder(p, rawKey, written)
    requires forall step :: step in before ==> step.WellFormed() && !step.Rotate?
    requires forall step :: step in later ==> step.WellFormed()
    ensures var first := Run(p, State(rawKey, written), before);
            var last := Run(p, Next(p, first, Rotate(material)), later);
            forall e :: e in first.written ==>
              && Readable(p, first.keyring, e)
              && e in last.written && (Readable(p, last.keyring, e) <==> |rawKey| >= 32)
  {
    BeforeRotation(p, rawKey, written, before);
    var first := Run(p, State(rawKey, written), before);
    var next := Next(p, first, Rotate(material));
    var last := Run(p, next, later);
    var key := if |rawKey| >= 32 then rawKey else next.keyring;
    FirstRotation(p, rawKey, material);
    assert HoldsLegacy(p, rawKey, rawKey);
    hide WrittenUnder, Readable, HoldsLegacy, ParseKeyring, IsRawKey;
    LegacyKeyStays(p, next, later, key);
    RunOnlyAdds(p, next, later);
    forall e | e in first.written
      ensures Readable(p, first.keyring, e) && e in last.written && (Readable(p, last.keyring, e) <==> |rawKey| >= 32)
    {
      ReadableWhileHeld(p, rawKey, e, rawKey, rawKey);
      ReadableWhileHeld(p, rawKey, e, last.keyring, key);
    }
  }

  lemma {:induction false} RunOnlyAdds(p: Platform, s: State, steps: seq<Step>)
    ensures s.written <= Run(p, s, steps).written
    decreases |steps|
  {
    if steps != [] {
      NextOnlyAdds(p, s, steps[0]);
      RunOnlyAdds(p, Next(p, s, steps[0]), steps[1..]);
    }
  }

  /** So it is for one legacy secret and the first rotation alone. */
  lemma LegacySurvivesRotation(p: Platform, rawKey: string, material: string, purpose: string, iv: seq<byte>,
                               text: string)
    requires p.Lawful() && p.Authentic() && p.Containing() && IsRawKey(p, rawKey) && iv != [] && |material| == 64
    ensures var after := RotateKeyring(p, rawKey, material);
            after.Success?
            && (DecryptSecret(p, LegacyEnvelope(p, rawKey, iv, text), after.value, purpose) == Success(text)
                <==> |rawKey| >= 32)
  {
    var e := Sealed(LegacyEnvelope(p, rawKey, iv, text), purpose, text);
    assert IsLegacy(p, rawKey, e);
    hide LegacyEnvelope, DecryptSecret, ParseKeyring, IsLegacy, RotateKeyring;
    FirstRotation(p, rawKey, material);
    var after := RotateKeyring(p, rawKey, material).value;
    ReadableWhileHeld(p, rawKey, e, after, if |rawKey| >= 32 then rawKey else after);
  }

  /** And for what was encrypted under the raw key, for any purpose. */
  lemma EncryptedSurvivesRotation(p: Platform, rawKey: string, material: string, purpose: string, iv: seq<byte>,
                                  text: string)
    requires p.Lawful() && p.Authentic() && p.Containing() && IsRawKey(p, rawKey) && iv != [] && |material| == 64
    ensures var written := EncryptSecret(p, text, rawKey, purpose, iv);
            var after := RotateKeyring(p, rawKey, material);
            written.Success? && after.Success?
            && DecryptSecret(p, written.value, rawKey, purpose) == Success(text)
            && (DecryptSecret(p, written.value, after.value, purpose) == Success(text) <==> |rawKey| >= 32)
  {
    var written := EncryptSecret(p, text, rawKey, purpose, iv);
    assert written.Success? && HoldsLegacy(p, rawKey, rawKey);
    var e := Sealed(written.value, purpose, text);
    assert IsEncrypted(p, rawKey, e);
    hide EncryptSecret, DecryptSecret, ParseKeyring, IsEncrypted, RotateKeyring, HoldsLegacy;
    FirstRotation(p, rawKey, material);
    var after := RotateKeyring(p, rawKey, material).value;
    ReadableWhileHeld(p, rawKey, e, rawKey, rawKey);
    ReadableWhileHeld(p, rawKey, e, after, if |rawKey| >= 32 then rawKey else after);
  }

  // ---------- re-encryption ----------

  /** The envelope is a versioned one that names this key. */
  ghost predicate NamesKey(envelope: string, keyId: string) {
    exists iv, sealed :: '.' !in iv && '.' !in sealed && envelope == Join([VERSION, keyId, iv, sealed], '.')
  }

  lemma NamesKeyIsVersioned(envelope: string, keyId: string)
    requires '.' !in keyId
    ensures NamesKey(envelope, keyId) <==>
              IsVersioned(Split(envelope, '.')) && Split(envelope, '.')[1] == keyId
  {
    var parts := Split(envelope, '.');
    if iv, sealed :| '.' !in iv && '.' !in sealed && envelope == Join([VERSION, keyId, iv, sealed], '.') {
      var four := [VERSION, keyId, iv, sealed];
      forall part | part in four
        ensures '.' !in part
      {
      }
      SplitJoin(four, '.');
    }
    JoinSplit(envelope, '.');
    if IsVersioned(parts) && parts[1] == keyId {
      assert parts == [VERSION, keyId, parts[2], parts[3]];
      assert parts[2] in parts && parts[3] in parts;
      assert NamesKey(envelope, keyId);
    }
  }

  /** Nothing is rewritten exactly when the envelope already names the current key; what is rewritten
      names it, carries the same text, and is left alone the next time. */
  lemma ReencryptionIsExact(p: Platform, envelope: string, keyring: string, purpose: string, iv: seq<byte>)
    requires p.Lawful() && iv != []
    requires ParseKeyring(p, keyring).Success? && Sound(ParseKeyring(p, keyring).value)
    ensures var current := ParseKeyring(p, keyring).value.current;
            var r := ReencryptSecret(p, envelope, keyring, purpose, iv);
            && (r == Success(None) <==> NamesKey(envelope, current))
            && (r.Success? && r.value.Some? ==>
                  && NamesKey(r.value.value, current)
                  && DecryptSecret(p, r.value.value, keyring, purpose) == DecryptSecret(p, envelope, keyring, purpose)
                  && forall iv' :: ReencryptSecret(p, r.value.value, keyring, purpose, iv') == Success(None))
            && (r.Failure? <==> !NamesKey(envelope, current) && DecryptSecret(p, envelope, keyring, purpose).Failure?)
  {
    var ring := ParseKeyring(p, keyring).value;
    var clear := DecryptSecret(p, envelope, keyring, purpose);
    NamesKeyIsVersioned(envelope, ring.current);
    if clear.Success? {
      EncryptedIsReadable(p, clear.value, keyring, purpose, iv);
      var e := EncryptSecret(p, clear.value, keyring, purpose, iv).value;
      EncryptedNamesCurrent(p, clear.value, keyring, purpose, iv);
      NamesKeyIsVersioned(e, ring.current);
      hide DecryptSecret, EncryptSecret, ParseKeyring, NamesKey, Split;
    }
  }

  lemma EncryptedNamesCurrent(p: Platform, text: string, keyring: string, purpose: string, iv: seq<byte>)
    requires EncryptSecret(p, text, keyring, purpose, iv).Success?
    ensures NamesKey(EncryptSecret(p, text, keyring, purpose, iv).value, ParseKeyring(p, keyring).value.current)
  {
    var ring := ParseKeyring(p, keyring).value;
    var bytes := p.seal(KeyText(ring.keys[ring.current], purpose), iv, text);
    Base64HasNoDot(iv);
    Base64HasNoDot(bytes);
    hide Base64.Encode;
    assert EncryptSecret(p, text, keyring, purpose, iv).value
        == Join([VERSION, ring.current, Base64.Encode(iv), Base64.Encode(bytes)], '.');
  }

  // ---------- identifiers with dots ----------

  function Dots(s: string): nat {
    if s == "" then 0 else Dots(s[1..]) + if s[0] == '.' then 1 else 0
  }

  lemma {:induction false} SplitCounts(s: string)
    ensures |Split(s, '.')| == Dots(s) + 1
  {
    if s != "" {
      SplitCounts(s[1..]);
    }
  }

  lemma {:induction false} DotsAppend(s: string, t: string)
    ensures Dots(s + t) == Dots(s) + Dots(t)
  {
    if s == "" {
      assert s + t == t;
    } else {
      assert (s + t)[1..] == s[1..] + t;
      DotsAppend(s[1..], t);
    }
  }

  lemma {:induction false} NoDots(s: string)
    ensures Dots(s) == 0 <==> '.' !in s
  {
    if s != "" {
      NoDots(s[1..]);
      assert '.' in s <==> s[0] == '.' || '.' in s[1..];
    }
  }

  lemma JoinFour(v: string, k: string, a: string, b: string)
    ensures Join([v, k, a, b], '.') == v + ['.'] + (k + ['.'] + (a + ['.'] + b))
  {
    assert [v, k, a, b][1..] == [k, a, b] && [k, a, b][1..] == [a, b] && [a, b][1..] == [b];
    assert Join([b], '.') == b;
    assert Join([a, b], '.') == a + ['.'] + b;
    assert Join([k, a, b], '.') == k + ['.'] + (a + ['.'] + b);
  }

  /** An envelope is recognised as naming its key exactly when the identifier holds no dot. */
  lemma EnvelopeRecognised(keyId: string, iv: seq<byte>, sealed: seq<byte>)
    ensures IsVersioned(Split(Envelope(keyId, iv, sealed), '.')) <==> '.' !in keyId
  {
    if '.' !in keyId {
      EnvelopeParts(keyId, iv, sealed);
    } else {
      var a, b := Base64.Encode(iv), Base64.Encode(sealed);
      hide Base64.Encode, Split;
      NoDots(keyId);
      SplitCounts(Envelope(keyId, iv, sealed));
      JoinFour(VERSION, keyId, a, b);
      DotsAppend(VERSION + ['.'], keyId + ['.'] + (a + ['.'] + b));
      DotsAppend(VERSION, ['.']);
      DotsAppend(keyId + ['.'], a + ['.'] + b);
      DotsAppend(keyId, ['.']);
      DotsAppend(a + ['.'], b);
      DotsAppend(a, ['.']);
      assert Dots(['.']) == 1;
    }
  }

  // ---------- exactly what is accepted and refused ----------

  /** JSON of a ring that names a present current key and has no short key. */
  ghost predicate IsRing(p: Platform, value: string, ring: Ring) {
    && p.parseRing(value) == Some(ring) && ring.current in ring.keys
    && forall id :: id in ring.keys ==> |ring.keys[id]| >= 32
  }

  /** A keyring is such a ring, or else a raw key of 16 characters or more under the name "legacy". */
  lemma KeyringReadExactly(p: Platform, value: string, ring: Ring)
    ensures ParseKeyring(p, value) == Success(ring) <==>
              || IsRing(p, value, ring)
              || (&& (forall r :: !IsRing(p, value, r))
                  && |value| >= 16 && ring == Ring("legacy", map["legacy" := value]))
    ensures ParseKeyring(p, value).Failure? <==> (forall r :: !IsRing(p, value, r)) && |value| < 16
  {
    if ParseKeyring(p, value).Failure? || p.parseRing(value) == None {
      assert forall r :: !IsRing(p, value, r);
    } else {
      var r := p.parseRing(value).value;
      assert IsRing(p, value, r) <==> LongKeys(r) && r.current in r.keys;
    }
  }

  /** A part that is needed is missing or empty. */
  predicate Incomplete(parts: seq<string>) {
    if |parts| == 4 && parts[0] == "v1" then parts[1] == "" || parts[2] == "" || parts[3] == ""
    else |parts| < 2 || parts[0] == "" || parts[1] == ""
  }

  /** Why a secret is refused: incomplete secrets first, then a keyring that is not accepted or lacks the key named;
      everything else that does not open is said not to decrypt. */
  lemma RefusedExactly(p: Platform, value: string, keyring: string, purpose: string)
    ensures var parts := Split(value, '.');
            var named := if |parts| == 4 && parts[0] == "v1" then parts[1] else "legacy";
            var r := DecryptSecret(p, value, keyring, purpose);
            && (r == Failure(InvalidSecret) <==> Incomplete(parts))
            && (r == Failure(KeyUnavailable) <==>
                  && !Incomplete(parts)
                  && (ParseKeyring(p, keyring).Failure? || named !in ParseKeyring(p, keyring).value.keys))
  {
    hide Split, KeyText, Base64.Decode;
    if ParseKeyring(p, keyring).Success? {
      var ring := ParseKeyring(p, keyring).value;
      assert forall id :: id in ring.keys ==> |ring.keys[id]| >= 16;
    }
  }

  /** The identifier is a k and digits that come to n. */
  ghost predicate IsNumbered(id: string, n: nat) {
    exists digits :: id == "k" + digits && digits != "" && AllDigits(digits) && Value(digits) == n
  }

  /** The greatest number of an identifier in the ring, or 0 when there is none. */
  ghost predicate IsHighest(ring: Ring, m: nat) {
    && (m == 0 || exists id :: id in ring.keys && IsNumbered(id, m))
    && forall id, n: nat :: id in ring.keys && IsNumbered(id, n) ==> n <= m
  }

  lemma NumberedByVersion(id: string, n: nat)
    ensures IsNumbered(id, n) ==> KeyVersion(id) == n
    ensures KeyVersion(id) == n && n > 0 ==> IsNumbered(id, n)
  {
    forall digits | id == "k" + digits && digits != "" && AllDigits(digits) && Value(digits) == n
      ensures KeyVersion(id) == n
    {
      assert id[1..] == digits;
    }
    if KeyVersion(id) == n && n > 0 {
      assert id == "k" + id[1..];
    }
  }

  /** A rotation names its key after the number that follows the greatest one. */
  lemma NextKeyIdExactly(ring: Ring, m: nat)
    ensures NextKeyId(ring) == "k" + Print(m + 1) <==> IsHighest(ring, m)
  {
    var max := MaxVersion(ring.keys.Keys);
    ValueOfPrint(max + 1);
    ValueOfPrint(m + 1);
    assert ("k" + Print(max + 1))[1..] == Print(max + 1) && ("k" + Print(m + 1))[1..] == Print(m + 1);
    hide KeyVersion, Print, Value, IsNumbered, MaxVersion;
    forall id, n: nat
      ensures IsNumbered(id, n) ==> KeyVersion(id) == n
      ensures KeyVersion(id) == n && n > 0 ==> IsNumbered(id, n)
    {
      NumberedByVersion(id, n);
    }
    if max > 0 {
      var id :| id in ring.keys.Keys && KeyVersion(id) == max;
      assert id in ring.keys && IsNumbered(id, max);
    }
    if IsHighest(ring, m) && m > 0 {
      var id :| id in ring.keys && IsNumbered(id, m);
      assert id in ring.keys.Keys && KeyVersion(id) == m;
    }
    forall id, n: nat | id in ring.keys && IsNumbered(id, n)
      ensures n <= max
    {
      assert id in ring.keys.Keys && KeyVersion(id) == n;
    }
  }

  /** Whatever a run encrypts is on record at its end, and so readable. */
  lemma {:induction false} EncryptionsAreRecorded(p: Platform, s: State, steps: seq<Step>, k: nat)
    requires p.Lawful() && Healthy(p, s) && k < |steps| && steps[k].Encrypt?
    requires forall step :: step in steps ==> step.WellFormed()
    ensures exists e :: e in Run(p, s, steps).written && e.text == steps[k].text && e.purpose == steps[k].purpose
                        && Readable(p, Run(p, s, steps).keyring, e)
    decreases |steps|
  {
    RunKeepsSecretsReadable(p, s, steps);
    assert steps[0] in steps;
    var t := Next(p, s, steps[0]);
    if k == 0 {
      EncryptRecords(p, s, steps[0]);
      RunOnlyAdds(p, t, steps[1..]);
      var e := t.written[|s.written|];
      assert e in t.written && e in Run(p, s, steps).written;
    } else {
      StepIsHealthy(p, s, steps[0]);
      hide Healthy, Readable;
      EncryptionsAreRecorded(p, t, steps[1..], k - 1);
    }
  }

  lemma StepIsHealthy(p: Platform, s: State, step: Step)
    requires p.Lawful() && Healthy(p, s) && step.WellFormed()
    ensures Healthy(p, Next(p, s, step))
  {
    hide Healthy, Next;
    match step
    case Rotate(material) => RotateKeepsHealth(p, s, material);
    case Encrypt(text, purpose, iv) => EncryptKeepsHealth(p, s, text, purpose, iv);
    case Reencrypt(index, iv) => ReencryptKeepsHealth(p, s, index, iv);
  }

  lemma EncryptRecords(p: Platform, s: State, step: Step)
    requires p.Lawful() && Healthy(p, s) && step.Encrypt? && step.WellFormed()
    ensures var t := Next(p, s, step);
            && |t.written| == |s.written| + 1
            && t.written[|s.written|].text == step.text && t.written[|s.written|].purpose == step.purpose
  {
    hide ParseKeyring, EncryptSecret, DecryptSecret, Sound;
    EncryptedIsReadable(p, step.text, s.keyring, step.purpose, step.iv);
  }

  /** Re-encrypting leaves alone what names the current key; anything else on record is written once more, under that
      key, for the same purpose and with the same text. */
  lemma ReencryptRecords(p: Platform, s: State, index: nat, iv: seq<byte>)
    requires p.Lawful() && Healthy(p, s) && index < |s.written| && |iv| == 12
    ensures var t := Next(p, s, Reencrypt(index, iv));
            var was, current := s.written[index], ParseKeyring(p, s.keyring).value.current;
            if NamesKey(was.envelope, current) then t == s
            else
              && |t.written| == |s.written| + 1 && NamesKey(t.written[|s.written|].envelope, current)
              && t.written[|s.written|].text == was.text && t.written[|s.written|].purpose == was.purpose
  {
    var was := s.written[index];
    assert Readable(p, s.keyring, was);
    hide ParseKeyring, ReencryptSecret, DecryptSecret, Sound, NamesKey;
    ReencryptionIsExact(p, was.envelope, s.keyring, was.purpose, iv);
  }
}
