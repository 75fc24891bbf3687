/** The frames the CWC ciphers build and take apart.

    The native cipher is abstract: `seal` encrypts a message under a nonce and a header and computes a tag,
    `open` decrypts and checks the tag. */
module CwcFrames {
  import opened ByteOrder
  import opened TypedValues

  const IV_LENGTH := 11
  const TAG_LENGTH := 16
  const TOKEN_LENGTH := 8
  const TYPE_LENGTH := 1

  // Where the parts of a plain frame and of a client frame start.
  const TEXT_AT := IV_LENGTH + TAG_LENGTH
  const TAG_AT := TOKEN_LENGTH + IV_LENGTH
  const TYPE_AT := TAG_AT + TAG_LENGTH
  const CLIENT_TEXT_AT := TYPE_AT + TYPE_LENGTH

  datatype Sealed = Sealed(text: seq<Byte>, tag: seq<Byte>)

  datatype Cwc = Cwc(
    seal: (seq<Byte>, seq<Byte>, seq<Byte>) -> Option<Sealed>,
    open: (seq<Byte>, seq<Byte>, seq<Byte>, seq<Byte>) -> Option<seq<Byte>>)

  /** Encryption keeps the length and fills the tag; decryption returns a message exactly when the tag is the one
      that sealing that message to that text gives. */
  ghost predicate Lawful(cwc: Cwc) {
    && (forall iv, header, message :: cwc.seal(iv, header, message).Some? ==>
        |cwc.seal(iv, header, message).value.text| == |message| && |cwc.seal(iv, header, message).value.tag| == TAG_LENGTH)
    && (forall iv, header, text, tag, message ::
        cwc.open(iv, header, text, tag) == Some(message) <==> cwc.seal(iv, header, message) == Some(Sealed(text, tag)))
  }

  // ----- Layouts -----

  /** Nonce, tag, text: what both plain ciphers send. */
  function Frame(cwc: Cwc, iv: seq<Byte>, message: seq<Byte>): Option<seq<Byte>> {
    match cwc.seal(iv, iv, message)
    case None => None
    case Some(s) => Some(iv + s.tag + s.text)
  }

  function Unframed(cwc: Cwc, input: seq<Byte>): Option<seq<Byte>> {
    if |input| <= TEXT_AT then None
    else
      var iv, tag, text := input[..IV_LENGTH], input[IV_LENGTH..TEXT_AT], input[TEXT_AT..];
      cwc.open(iv, iv, text, tag)
  }

  function ClientHeader(token: seq<Byte>, iv: seq<Byte>, packetType: Byte): seq<Byte> {
    iv + token + [packetType]
  }

  /** Token, nonce, tag, packet type, text, under a header of nonce, token and packet type. */
  function ClientFrame(cwc: Cwc, token: seq<Byte>, iv: seq<Byte>, packetType: Byte, message: seq<Byte>): Option<seq<Byte>> {
    match cwc.seal(iv, ClientHeader(token, iv, packetType), message)
    case None => None
    case Some(s) => Some(token + iv + s.tag + [packetType] + s.text)
  }

  ghost predicate IsClientFrame(cwc: Cwc, token: seq<Byte>, iv: seq<Byte>, packetType: Byte, message: seq<Byte>,
    input: seq<Byte>)
  {
    |token| == TOKEN_LENGTH && |iv| == IV_LENGTH && ClientFrame(cwc, token, iv, packetType, message) == Some(input)
  }

  function ClientUnframed(cwc: Cwc, input: seq<Byte>): Option<seq<Byte>> {
    if |input| <= CLIENT_TEXT_AT then None
    else
      var token, iv, tag := input[..TOKEN_LENGTH], input[TOKEN_LENGTH..TAG_AT], input[TAG_AT..TYPE_AT];
      var packetType, text := input[TYPE_AT], input[CLIENT_TEXT_AT..];
      cwc.open(iv, ClientHeader(token, iv, packetType), text, tag)
  }

  /** An input is decrypted to a message exactly when the message is not empty and the input is the frame of that
      message under some nonce of eleven bytes. */
  lemma UnframedExact(cwc: Cwc, input: seq<Byte>, message: seq<Byte>)
    requires Lawful(cwc)
    ensures Unframed(cwc, input) == Some(message)
       <==> message != [] && exists iv :: |iv| == IV_LENGTH && Frame(cwc, iv, message) == Some(input)
  {
    if Unframed(cwc, input) == Some(message) {
      var iv, tag, text := input[..IV_LENGTH], input[IV_LENGTH..TEXT_AT], input[TEXT_AT..];
      assert cwc.seal(iv, iv, message) == Some(Sealed(text, tag));
      assert input == iv + tag + text;
      assert Frame(cwc, iv, message) == Some(input);
    }
    if message != [] && exists iv :: |iv| == IV_LENGTH && Frame(cwc, iv, message) == Some(input) {
      var iv :| |iv| == IV_LENGTH && Frame(cwc, iv, message) == Some(input);
      FrameRoundTrip(cwc, iv, message);
    }
  }

  /** A frame decrypts to its message exactly when the message is not empty. */
  lemma FrameRoundTrip(cwc: Cwc, iv: seq<Byte>, message: seq<Byte>)
    requires Lawful(cwc) && |iv| == IV_LENGTH && Frame(cwc, iv, message).Some?
    ensures Unframed(cwc, Frame(cwc, iv, message).value) == if message == [] then None else Some(message)
  {
    var s := cwc.seal(iv, iv, message).value;
    var input := iv + s.tag + s.text;
    assert input[..IV_LENGTH] == iv;
    if message != [] {
      assert input[IV_LENGTH..TEXT_AT] == s.tag && input[TEXT_AT..] == s.text;
      assert cwc.open(iv, iv, s.text, s.tag) == Some(message);
    }
  }

  /** The client's layout likewise: exactly the frames of nonempty messages are decrypted, whatever token and type. */
  lemma ClientUnframedExact(cwc: Cwc, input: seq<Byte>, message: seq<Byte>)
    requires Lawful(cwc)
    ensures ClientUnframed(cwc, input) == Some(message)
       <==> message != [] && exists token, iv, packetType :: IsClientFrame(cwc, token, iv, packetType, message, input)
  {
    if ClientUnframed(cwc, input) == Some(message) {
      var token, iv, tag := input[..TOKEN_LENGTH], input[TOKEN_LENGTH..TAG_AT], input[TAG_AT..TYPE_AT];
      var packetType, text := input[TYPE_AT], input[CLIENT_TEXT_AT..];
      assert cwc.seal(iv, ClientHeader(token, iv, packetType), message) == Some(Sealed(text, tag));
      assert input == token + iv + tag + [packetType] + text;
      assert IsClientFrame(cwc, token, iv, packetType, message, input);
    }
    if message != [] && exists token, iv, packetType :: IsClientFrame(cwc, token, iv, packetType, message, input) {
      var token, iv, packetType: Byte :| IsClientFrame(cwc, token, iv, packetType, message, input);
      ClientRoundTrip(cwc, token, iv, packetType, message);
    }
  }

  lemma ClientRoundTrip(cwc: Cwc, token: seq<Byte>, iv: seq<Byte>, packetType: Byte, message: seq<Byte>)
    requires Lawful(cwc) && |token| == TOKEN_LENGTH && |iv| == IV_LENGTH
    requires ClientFrame(cwc, token, iv, packetType, message).Some?
    ensures ClientUnframed(cwc, ClientFrame(cwc, token, iv, packetType, message).value) ==
      if message == [] then None else Some(message)
  {
    var header := ClientHeader(token, iv, packetType);
    var s := cwc.seal(iv, header, message).value;
    var input := token + iv + s.tag + [packetType] + s.text;
    if message != [] {
      assert input[..TOKEN_LENGTH] == token && input[TOKEN_LENGTH..TAG_AT] == iv && input[TAG_AT..TYPE_AT] == s.tag;
      assert input[TYPE_AT] == packetType && input[CLIENT_TEXT_AT..] == s.text;
      assert cwc.open(iv, header, s.text, s.tag) == Some(message);
    }
  }

  // ----- The layouts in plain numbers -----

  /** A plain frame: nonce in the first 11 bytes, tag in the next 16, then text; the nonce is the header too. */
  lemma PlainLayout(cwc: Cwc, input: seq<Byte>, iv: seq<Byte>, message: seq<Byte>)
    ensures |input| > 27 ==> Unframed(cwc, input) == cwc.open(input[..11], input[..11], input[27..], input[11..27])
    ensures |input| <= 27 ==> Unframed(cwc, input) == None
    ensures Frame(cwc, iv, message).Some? <==> cwc.seal(iv, iv, message).Some?
    ensures Frame(cwc, iv, message).Some? ==>
      var s := cwc.seal(iv, iv, message).value; Frame(cwc, iv, message) == Some(iv + s.tag + s.text)
  {
  }

  /** A client frame: token in the first 8 bytes, nonce in the next 11, tag in the next 16, type at 35, then text; the header
      is nonce, token and type. */
  lemma ClientLayout(cwc: Cwc, input: seq<Byte>)
    ensures |input| > 36 ==>
      ClientUnframed(cwc, input) ==
        cwc.open(input[8..19], input[8..19] + input[..8] + [input[35]], input[36..], input[19..35])
    ensures |input| <= 36 ==> ClientUnframed(cwc, input) == None
  {
  }

  // ----- The classes -----

  /** `Array.Copy` of a range that lies inside both arrays. */
  method Copy(source: array<Byte>, sourceAt: nat, target: array<Byte>, targetAt: nat, count: nat)
    requires sourceAt + count <= source.Length && targetAt + count <= target.Length && source != target
    modifies target
    ensures target[..] == old(target[..])[..targetAt] + source[sourceAt..sourceAt + count] + old(target[..])[targetAt + count..]
  {
    forall i | 0 <= i < count {
      target[targetAt + i] := source[sourceAt + i];
    }
  }

  /** The native context: messages are encrypted and decrypted in place, tags are written in place. */
  class CwcContext {
    const cwc: Cwc

    ghost predicate Valid() {
      Lawful(cwc)
    }

    constructor (cwc: Cwc)
      requires Lawful(cwc)
      ensures Valid() && this.cwc == cwc
    {
      this.cwc := cwc;
    }

    method Encrypt(iv: array<Byte>, header: array<Byte>, message: array<Byte>, tag: array<Byte>) returns (ok: bool)
      requires Valid() && tag.Length == TAG_LENGTH
      requires message != tag && iv != message && iv != tag && header != message && header != tag
      modifies message, tag
      ensures iv[..] == old(iv[..]) && header[..] == old(header[..])
      ensures ok <==> cwc.seal(iv[..], header[..], old(message[..])).Some?
      ensures ok ==> cwc.seal(iv[..], header[..], old(message[..])) == Some(Sealed(message[..], tag[..]))
    {
      var s := cwc.seal(iv[..], header[..], message[..]);
      if s.None? {
        return false;
      }
      forall i | 0 <= i < message.Length { message[i] := s.value.text[i]; }
      forall i | 0 <= i < tag.Length { tag[i] := s.value.tag[i]; }
      assert message[..] == s.value.text && tag[..] == s.value.tag;
      assert iv[..] == old(iv[..]) && header[..] == old(header[..]);
      return true;
    }

    method Decrypt(iv: array<Byte>, header: array<Byte>, message: array<Byte>, tag: array<Byte>) returns (ok: bool)
      requires Valid() && message != tag && iv != message && header != message
      modifies message
      ensures iv[..] == old(iv[..]) && header[..] == old(header[..]) && tag[..] == old(tag[..])
      ensures ok <==> cwc.open(iv[..], header[..], old(message[..]), tag[..]).Some?
      ensures ok ==> cwc.open(iv[..], header[..], old(message[..]), tag[..]) == Some(message[..])
    {
      var m := cwc.open(iv[..], header[..], message[..], tag[..]);
      if m.None? {
        return false;
      }
      assert cwc.seal(iv[..], header[..], m.value) == Some(Sealed(message[..], tag[..]));
      forall i | 0 <= i < message.Length { message[i] := m.value[i]; }
      assert message[..] == m.value;
      assert iv[..] == old(iv[..]) && header[..] == old(header[..]) && tag[..] == old(tag[..]);
      return true;
    }
  }

  class CWCCipher {
    const key: CwcContext

    constructor (key: CwcContext)
      ensures this.key == key
    {
      this.key := key;
    }

    method Decrypt(input: array<Byte>) returns (r: Option<array<Byte>>)
      requires key.Valid()
      ensures r.Some? <==> Unframed(key.cwc, input[..]).Some?
      ensures r.Some? ==> fresh(r.value) && Unframed(key.cwc, input[..]) == Some(r.value[..])
    {
      var iv := new Byte[IV_LENGTH](_ => 0);
      var tag := new Byte[TAG_LENGTH](_ => 0);
      var messageOffset := IV_LENGTH + TAG_LENGTH;
      if messageOffset >= input.Length {
        return None;
      }
      var output := new Byte[input.Length - messageOffset](_ => 0);
      Copy(input, 0, iv, 0, IV_LENGTH);
      Copy(input, IV_LENGTH, tag, 0, TAG_LENGTH);
      Copy(input, messageOffset, output, 0, output.Length);
      assert iv[..] == input[..][..IV_LENGTH] && tag[..] == input[..][IV_LENGTH..TEXT_AT] && output[..] == input[..][TEXT_AT..];
      var ok := key.Decrypt(iv, iv, output, tag);
      r := if ok then Some(output) else None;
    }

    /** `iv` is the nonce drawn at random. The caller's array is overwritten with the encrypted text. */
    method Encrypt(input: array<Byte>, iv: array<Byte>) returns (r: Option<array<Byte>>)
      requires key.Valid() && iv.Length == IV_LENGTH && iv != input
      modifies input
      ensures r.Some? <==> Frame(key.cwc, iv[..], old(input[..])).Some?
      ensures r.Some? ==> fresh(r.value) && Frame(key.cwc, iv[..], old(input[..])) == Some(r.value[..])
      ensures r.Some? ==> input[..] == r.value[..][TEXT_AT..]
    {
      var tag := new Byte[TAG_LENGTH](_ => 0);
      var ok := key.Encrypt(iv, iv, input, tag);
      if !ok {
        return None;
      }
      var output := BuildFrame(iv, tag, input);
      return Some(output);
    }
  }

  /** Nonce, tag and text copied into one array. */
  method BuildFrame(iv: array<Byte>, tag: array<Byte>, message: array<Byte>) returns (output: array<Byte>)
    requires iv.Length == IV_LENGTH && tag.Length == TAG_LENGTH
    ensures fresh(output) && output[..] == iv[..] + tag[..] + message[..]
  {
    var tagOffset := iv.Length;
    var messageOffset := tagOffset + tag.Length;
    output := new Byte[messageOffset + message.Length](_ => 0);
    Copy(iv, 0, output, 0, iv.Length);
    Copy(tag, 0, output, tagOffset, tag.Length);
    Copy(message, 0, output, messageOffset, message.Length);
  }

  /** The same frames, with the header in an array of its own. */
  class CWCUdpServerCipher {
    const key: CwcContext

    constructor (key: CwcContext)
      ensures this.key == key
    {
      this.key := key;
    }

    method Decrypt(input: array<Byte>) returns (r: Option<array<Byte>>)
      requires key.Valid()
      ensures r.Some? <==> Unframed(key.cwc, input[..]).Some?
      ensures r.Some? ==> fresh(r.value) && Unframed(key.cwc, input[..]) == Some(r.value[..])
    {
      var iv := new Byte[IV_LENGTH](_ => 0);
      var tag := new Byte[TAG_LENGTH](_ => 0);
      var messageOffset := IV_LENGTH + TAG_LENGTH;
      if messageOffset >= input.Length {
        return None;
      }
      var output := new Byte[input.Length - messageOffset](_ => 0);
      Copy(input, 0, iv, 0, IV_LENGTH);
      Copy(input, IV_LENGTH, tag, 0, TAG_LENGTH);
      Copy(input, messageOffset, output, 0, output.Length);
      var header := new Byte[IV_LENGTH](_ => 0);
      Copy(iv, 0, header, 0, IV_LENGTH);
      assert header[..] == iv[..] == input[..][..IV_LENGTH];
      assert tag[..] == input[..][IV_LENGTH..TEXT_AT] && output[..] == input[..][TEXT_AT..];
      var ok := key.Decrypt(iv, header, output, tag);
      r := if ok then Some(output) else None;
    }

    method Encrypt(input: array<Byte>, iv: array<Byte>) returns (r: Option<array<Byte>>)
      requires key.Valid() && iv.Length == IV_LENGTH && iv != input
      modifies input
      ensures r.Some? <==> Frame(key.cwc, iv[..], old(input[..])).Some?
      ensures r.Some? ==> fresh(r.value) && Frame(key.cwc, iv[..], old(input[..])) == Some(r.value[..])
      ensures r.Some? ==> input[..] == r.value[..][TEXT_AT..]
    {
      var tag := new Byte[TAG_LENGTH](_ => 0);
      var header := new Byte[IV_LENGTH](_ => 0);
      Copy(iv, 0, header, 0, IV_LENGTH);
      assert header[..] == iv[..];
      var ok := key.Encrypt(iv, header, input, tag);
      if !ok {
        return None;
      }
      var output := BuildFrame(iv, tag, input);
      return Some(output);
    }
  }

  /** Nonce, token and packet type copied into one array. */
  method BuildHeader(iv: array<Byte>, token: array<Byte>, packetType: Byte) returns (header: array<Byte>)
    requires iv.Length == IV_LENGTH && token.Length == TOKEN_LENGTH
    ensures fresh(header) && header[..] == ClientHeader(token[..], iv[..], packetType)
  {
    header := new Byte[IV_LENGTH + TOKEN_LENGTH + TYPE_LENGTH](_ => 0);
    Copy(iv, 0, header, 0, iv.Length);
    Copy(token, 0, header, IV_LENGTH, token.Length);
    header[IV_LENGTH + TOKEN_LENGTH] := packetType;
  }

  class CWCUdpClientCipher {
    const key: CwcContext

    constructor (key: CwcContext)
      ensures this.key == key
    {
      this.key := key;
    }

    method Decrypt(input: array<Byte>) returns (r: Option<array<Byte>>)
      requires key.Valid()
      ensures r.Some? <==> ClientUnframed(key.cwc, input[..]).Some?
      ensures r.Some? ==> fresh(r.value) && ClientUnframed(key.cwc, input[..]) == Some(r.value[..])
    {
      var token := new Byte[TOKEN_LENGTH](_ => 0);
      var iv := new Byte[IV_LENGTH](_ => 0);
      var tag := new Byte[TAG_LENGTH](_ => 0);
      var messageOffset := TOKEN_LENGTH + IV_LENGTH + TAG_LENGTH + TYPE_LENGTH;
      if messageOffset >= input.Length {
        return None;
      }
      var output := new Byte[input.Length - messageOffset](_ => 0);
      var ivOffset := TOKEN_LENGTH;
      var tagOffset := ivOffset + IV_LENGTH;
      var typeOffset := tagOffset + TAG_LENGTH;
      Copy(input, 0, token, 0, token.Length);
      Copy(input, ivOffset, iv, 0, iv.Length);
      Copy(input, tagOffset, tag, 0, tag.Length);
      var packetType := input[typeOffset];
      Copy(input, messageOffset, output, 0, output.Length);
      assert token[..] == input[..][..TOKEN_LENGTH] && iv[..] == input[..][TOKEN_LENGTH..TAG_AT];
      assert tag[..] == input[..][TAG_AT..TYPE_AT];
      assert packetType == input[..][TYPE_AT] && output[..] == input[..][CLIENT_TEXT_AT..];
      hide ClientHeader;
      var header := BuildHeader(iv, token, packetType);
      var ok := key.Decrypt(iv, header, output, tag);
      r := if ok then Some(output) else None;
    }
  }

  /** Under one key, either plain cipher decrypts what either of them encrypted, for every nonempty message and nonce. */
  method Exchange(a: CWCCipher, b: CWCUdpServerCipher, message: array<Byte>, iv: array<Byte>, fromServer: bool, toServer: bool)
    returns (r: Option<array<Byte>>, sent: bool)
    requires a.key == b.key && a.key.Valid() && iv.Length == IV_LENGTH && iv != message && message.Length > 0
    modifies message
    ensures sent <==> Frame(a.key.cwc, iv[..], old(message[..])).Some?
    ensures sent ==> r.Some? && r.value[..] == old(message[..])
  {
    ghost var original := message[..];
    var frame: Option<array<Byte>>;
    if fromServer {
      frame := b.Encrypt(message, iv);
    } else {
      frame := a.Encrypt(message, iv);
    }
    if frame.None? {
      return None, false;
    }
    FrameRoundTrip(a.key.cwc, iv[..], original);
    if toServer {
      r := b.Decrypt(frame.value);
    } else {
      r := a.Decrypt(frame.value);
    }
    sent := true;
  }
}
