/** Requests and answers as bytes: how the bootloader reads and answers them
  * (boot_uds.c), and how the gateway writes and understands them (uds.py). */
module Requests {
  import opened Bytes
  import opened Uds

  const MAX_REQUEST: nat := 256
  const NEGATIVE: byte := 0x7F
  const SERVICE_NOT_SUPPORTED: byte := 0x11
  const INCORRECT_MESSAGE: byte := 0x13
  const CONDITIONS: byte := 0x22
  const REQUEST_OUT_OF_RANGE: byte := 0x31
  const P2_SERVER_MS: nat := 50
  const P2_STAR_SERVER_MS: nat := 5000
  const MAX_BLOCK_LENGTH: nat := 130

  /** read32; int.from_bytes(..., "big"). */
  function BigEndian(q: seq<byte>, at: nat): word
    requires at + 4 <= |q|
  {
    0x100_0000 * (q[at] as int) + 0x1_0000 * (q[at + 1] as int) + 0x100 * (q[at + 2] as int) + q[at + 3] as int
  }

  /** write32; to_bytes(4, "big"). */
  function InBytes(w: word): (s: seq<byte>)
    ensures |s| == 4
  {
    [ByteOf(w, 3), ByteOf(w, 2), ByteOf(w, 1), ByteOf(w, 0)]
  }

  lemma WordsAreRead(q: seq<byte>, at: nat, w: word)
    requires at + 4 <= |q|
    ensures q[at..at + 4] == InBytes(w) <==> BigEndian(q, at) == w
  {
    WordOfBytes(w);
    var part := q[at..at + 4];
    assert part[0] == q[at] && part[1] == q[at + 1] && part[2] == q[at + 2] && part[3] == q[at + 3];
    if BigEndian(q, at) == w {
      BytesOfSum(q[at + 3], q[at + 2], q[at + 1], q[at]);
    }
  }

  lemma BytesOfSum(b0: byte, b1: byte, b2: byte, b3: byte)
    ensures var w: word := b0 as int + 0x100 * (b1 as int) + 0x1_0000 * (b2 as int) + 0x100_0000 * (b3 as int);
      ByteOf(w, 0) == b0 && ByteOf(w, 1) == b1 && ByteOf(w, 2) == b2 && ByteOf(w, 3) == b3
  {
    var s := [b0, b1, b2, b3];
    ByteOfWordAt(s, 0, 0);
    ByteOfWordAt(s, 0, 1);
    ByteOfWordAt(s, 0, 2);
    ByteOfWordAt(s, 0, 3);
  }

  // ---------------------------------------------------------------- bootloader

  /** What a message asks for: something of the programming sequence, a report that
    * changes nothing, the commissioning of a journal, or nothing the server does. */
  datatype Parsed = Perform(request: Request) | Report | Commission(active: byte) | Refuse(nrc: byte)

  /** BootUds_ProcessRequest up to the point where it acts, in session `kind`. What a
    * seed would be drawn from is `drawn`. */
  function Decode(q: seq<byte>, kind: byte, drawn: word): Parsed
    requires 0 < |q| <= MAX_REQUEST
  {
    if q[0] == 0x10 then
      if |q| != 2 then Refuse(INCORRECT_MESSAGE) else Perform(DiagnosticSession(q[1]))
    else if q[0] == 0x27 then
      if kind != PROGRAMMING_SESSION then Refuse(CONDITIONS)
      else if |q| == 2 && q[1] == 1 then Perform(RequestSeed(drawn))
      else if |q| == 6 && q[1] == 2 then Perform(SendKey(BigEndian(q, 2)))
      else Refuse(INCORRECT_MESSAGE)
    else if q[0] == 0x22 then
      if |q| != 3 then Refuse(INCORRECT_MESSAGE)
      else if q[1] == 0xF1 && 1 <= q[2] <= 5 then Report
      else Refuse(REQUEST_OUT_OF_RANGE)
    else if q[0] == 0x31 then Routine(q)
    else if q[0] == 0x34 then
      if |q| != 11 then Refuse(INCORRECT_MESSAGE)
      else if q[1] != 0 || q[2] != 0x44 then Refuse(REQUEST_OUT_OF_RANGE)
      else Perform(RequestDownload(BigEndian(q, 3), BigEndian(q, 7)))
    else if q[0] == 0x36 then
      if |q| < 3 then Refuse(INCORRECT_MESSAGE) else Perform(TransferData(q[1], q[2..]))
    else if q[0] == 0x37 then
      if |q| != 1 then Refuse(INCORRECT_MESSAGE) else Perform(TransferExit)
    else if q[0] == 0x11 then
      if |q| != 2 then Refuse(INCORRECT_MESSAGE)
      else if q[1] != 1 then Refuse(SUBFUNCTION_NOT_SUPPORTED)
      else Perform(EcuReset)
    else if q[0] == 0x3E then
      if |q| != 2 || q[1] != 0 then Refuse(INCORRECT_MESSAGE) else Report
    else Refuse(SERVICE_NOT_SUPPORTED)
  }

  /** RoutineControl: erase, verify, commission. */
  function Routine(q: seq<byte>): Parsed
    requires |q| > 0
  {
    if |q| < 4 then Refuse(INCORRECT_MESSAGE)
    else if q[1] != 1 then Refuse(SUBFUNCTION_NOT_SUPPORTED)
    else if q[2] == 0xFF && q[3] == 0 then
      if |q| != 12 then Refuse(INCORRECT_MESSAGE) else Perform(EraseSlot(BigEndian(q, 4), BigEndian(q, 8)))
    else if q[2] == 0xFF && q[3] == 1 then
      if |q| != 4 then Refuse(INCORRECT_MESSAGE) else Perform(VerifyImage)
    else if q[2] == 0xFF && q[3] == 2 then
      if |q| != 5 then Refuse(INCORRECT_MESSAGE) else Commission(q[4])
    else Refuse(REQUEST_OUT_OF_RANGE)
  }

  /** The response to a request that was performed. */
  function Respond(request: Request, nrc: byte, seed: word): seq<byte>
    requires !request.Idle?
  {
    if nrc != 0 then [NEGATIVE, Sid(request), nrc]
    else
      match request
      case DiagnosticSession(kind) =>
        [0x50, kind, P2_SERVER_MS / 256, P2_SERVER_MS % 256, P2_STAR_SERVER_MS / 10 / 256, P2_STAR_SERVER_MS / 10 % 256]
      case RequestSeed(_) => [0x67, 1] + InBytes(seed)
      case SendKey(_) => [0x67, 2]
      case EraseSlot(_, _) => [0x71, 1, 0xFF, 0]
      case VerifyImage => [0x71, 1, 0xFF, 1]
      case RequestDownload(_, _) => [0x74, 0x20, MAX_BLOCK_LENGTH / 256, MAX_BLOCK_LENGTH % 256]
      case TransferData(sequence, _) => [0x76, sequence]
      case TransferExit => [0x77]
      case EcuReset => [0x51, 1]
  }

  function Sid(request: Request): byte
    requires !request.Idle?
  {
    match request
    case DiagnosticSession(_) => 0x10
    case RequestSeed(_) => 0x27
    case SendKey(_) => 0x27
    case EraseSlot(_, _) => 0x31
    case VerifyImage => 0x31
    case RequestDownload(_, _) => 0x34
    case TransferData(_, _) => 0x36
    case TransferExit => 0x37
    case EcuReset => 0x11
  }

  // ------------------------------------------------------------------- gateway

  predicate IsWord(n: int) { 0 <= n < WORD_MODULUS }

  /** What the gateway can put into a message. */
  predicate Expressible(request: Request) {
    match request
    case EraseSlot(address, size) => IsWord(address) && IsWord(size)
    case RequestDownload(address, size) => IsWord(address) && IsWord(size)
    case TransferData(_, data) => 0 < |data| <= MAX_REQUEST - 2
    case Idle => false
    case _ => true
  }

  /** UdsClient: the message for a request. */
  function Encode(request: Request): (q: seq<byte>)
    requires Expressible(request)
    ensures 0 < |q| <= MAX_REQUEST
  {
    match request
    case DiagnosticSession(kind) => [0x10, kind]
    case RequestSeed(_) => [0x27, 1]
    case SendKey(key) => [0x27, 2] + InBytes(key)
    case EraseSlot(address, size) => [0x31, 1, 0xFF, 0] + InBytes(address) + InBytes(size)
    case VerifyImage => [0x31, 1, 0xFF, 1]
    case RequestDownload(address, size) => [0x34, 0, 0x44] + InBytes(address) + InBytes(size)
    case TransferData(sequence, data) => [0x36, sequence] + data
    case TransferExit => [0x37]
    case EcuReset => [0x11, 1]
  }

  /** What the gateway makes of the final response: done, with what it reports; the
    * error it raises for a negative response; or the error for anything else. */
  datatype Reading = Done(value: nat) | Rejected(nrc: byte) | Malformed

  /** int.from_bytes(..., "big") of any length. */
  function Unsigned(s: seq<byte>): nat
    decreases |s|
  {
    if s == [] then 0 else 256 * Unsigned(s[..|s| - 1]) + s[|s| - 1]
  }

  /** UdsClient._exchange and the checks of each request. */
  function Read(request: Request, response: seq<byte>): Reading
    requires !request.Idle?
  {
    if response == [] then Malformed
    else if response[0] == NEGATIVE then
      if |response| != 3 || response[1] != Sid(request) then Malformed else Rejected(response[2])
    else if response[0] != (Sid(request) + 0x40) % 256 then Malformed
    else
      match request
      case DiagnosticSession(kind) =>
        if |response| != 6 || response[1] != kind || response[2..4] == [0, 0] || response[4..6] == [0, 0] then Malformed
        else Done(0)
      case RequestSeed(_) =>
        if |response| != 6 || response[1] != 1 then Malformed else Done(BigEndian(response, 2))
      case SendKey(_) => if response != [0x67, 2] then Malformed else Done(0)
      case EraseSlot(_, _) => ReadRoutine(response, 0)
      case VerifyImage => ReadRoutine(response, 1)
      case RequestDownload(_, _) =>
        if |response| < 3 || response[1] / 16 == 0 || |response| != 2 + response[1] / 16 then Malformed
        else Done(Unsigned(response[2..]))
      case TransferData(sequence, _) => if |response| != 2 || response[1] != sequence then Malformed else Done(0)
      case TransferExit => if |response| != 1 then Malformed else Done(0)
      case EcuReset => if response != [0x51, 1] then Malformed else Done(0)
  }

  function ReadRoutine(response: seq<byte>, routine: byte): Reading
    requires |response| > 0
  {
    if |response| != 4 || response[1] != 1 || response[2] != 0xFF || response[3] != routine then Malformed else Done(0)
  }

  // ---------------------------------------------------------------- agreement

  /** The bootloader performs what the gateway asked for. */
  lemma RequestUnderstood(request: Request, kind: byte, drawn: word)
    requires Expressible(request)
    requires request.RequestSeed? || request.SendKey? ==> kind == PROGRAMMING_SESSION
    requires request.RequestSeed? ==> request.drawn == drawn
    ensures Decode(Encode(request), kind, drawn) == Perform(request)
  {
    hide ByteOf, BigEndian;
    var q := Encode(request);
    match request
    case SendKey(key) => WordsAreRead(q, 2, key);
    case EraseSlot(address, size) =>
      WordsAreRead(q, 4, address);
      WordsAreRead(q, 8, size);
    case RequestDownload(address, size) =>
      WordsAreRead(q, 3, address);
      WordsAreRead(q, 7, size);
    case TransferData(sequence, data) => assert q[2..] == data;
    case _ =>
  }

  /** ... and performs nothing else: any message it acts on is one the gateway writes. */
  lemma OnlySuchRequests(q: seq<byte>, kind: byte, drawn: word)
    requires 0 < |q| <= MAX_REQUEST && Decode(q, kind, drawn).Perform?
    ensures var request := Decode(q, kind, drawn).request;
      && Expressible(request) && Encode(request) == q
      && (request.RequestSeed? || request.SendKey? ==> kind == PROGRAMMING_SESSION)
  {
    hide ByteOf, BigEndian, InBytes;
    var request := Decode(q, kind, drawn).request;
    match request
    case SendKey(key) =>
      WordsAreRead(q, 2, key);
      assert q == q[..2] + q[2..6];
    case EraseSlot(address, size) =>
      WordsAreRead(q, 4, address);
      WordsAreRead(q, 8, size);
      assert q == q[..4] + q[4..8] + q[8..12];
    case RequestDownload(address, size) =>
      WordsAreRead(q, 3, address);
      WordsAreRead(q, 7, size);
      assert q == q[..3] + q[3..7] + q[7..11];
    case TransferData(sequence, data) => assert q == q[..2] + q[2..];
    case _ =>
  }

  /** What the gateway is told of: the seed, the block length, nothing else. */
  function Reported(request: Request, seed: word): word {
    if request.RequestSeed? then seed else if request.RequestDownload? then 130 else 0
  }

  /** The gateway takes a response as done if and only if it is positive, and learns
    * the refusal otherwise. */
  lemma ResponseUnderstood(request: Request, nrc: byte, seed: word)
    requires !request.Idle?
    ensures Read(request, Respond(request, nrc, seed))
         == if nrc == 0 then Done(Reported(request, seed)) else Rejected(nrc)
  {
    hide ByteOf;
    var response := Respond(request, nrc, seed);
    if nrc == 0 {
      match request
      case DiagnosticSession(_) => assert response[2..4][1] == 50 && response[4..6][0] == 1;
      case RequestSeed(_) =>
        assert response[2..6] == InBytes(seed);
        WordsAreRead(response, 2, seed);
      case RequestDownload(_, _) => assert response[2..] == [0, 130] && [0, 130][..1] == [0] && [0][..0] == [];
      case _ =>
    }
  }
}
