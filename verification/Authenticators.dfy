/**
 * What the message authenticators are computed over. Each input is a list of byte strings, every
 * one written with its length first, so that no two lists share an input; a label keeps the
 * protocols apart.
 */
module Authenticators {
  import opened Common

  type byte = x: int | 0 <= x < 256

  type Bytes = seq<byte>

  const COLON: byte := 58

  function Text(s: string): (b: Bytes)
    ensures |b| == |s|
  {
    seq(|s|, i requires 0 <= i < |s| => s[i] as int % 256)
  }

  // ----- Decimal lengths -----

  predicate Digit(b: byte) {
    48 <= b <= 57
  }

  function DigitOf(n: int): (b: byte)
    requires 0 <= n < 10
    ensures Digit(b)
  {
    48 + n
  }

  /** Decimal notation, without leading zeros. */
  function Decimal(n: nat): (d: Bytes)
    ensures |d| > 0 && forall i :: 0 <= i < |d| ==> Digit(d[i])
  {
    if n < 10 then [DigitOf(n)] else Decimal(n / 10) + [DigitOf(n % 10)]
  }

  function Value(d: Bytes): nat
    requires forall i :: 0 <= i < |d| ==> Digit(d[i])
  {
    if |d| == 0 then 0
    else
      assert Digit(d[|d| - 1]);
      10 * Value(d[..|d| - 1]) + (d[|d| - 1] as int - 48)
  }

  lemma {:induction false} ValueOfDecimal(n: nat)
    ensures Value(Decimal(n)) == n
  {
    var d := Decimal(n);
    if n >= 10 {
      ValueOfDecimal(n / 10);
      assert d[..|d| - 1] == Decimal(n / 10);
    } else {
      assert d[..|d| - 1] == [];
    }
  }

  lemma DecimalInjective(m: nat, n: nat)
    ensures Decimal(m) == Decimal(n) <==> m == n
  {
    ValueOfDecimal(m);
    ValueOfDecimal(n);
  }

  // ----- Length-prefixed fields -----

  /** One field: its length in decimal, a colon, its bytes. */
  function Field(f: Bytes): Bytes {
    Decimal(|f|) + [COLON] + f
  }

  function Encode(fields: seq<Bytes>): Bytes {
    if |fields| == 0 then [] else Field(fields[0]) + Encode(fields[1..])
  }

  /** The number of leading digits. */
  function DigitRun(b: Bytes): (k: nat)
    ensures k <= |b| && (forall i :: 0 <= i < k ==> Digit(b[i])) && (k < |b| ==> !Digit(b[k]))
  {
    if |b| == 0 || !Digit(b[0]) then 0 else 1 + DigitRun(b[1..])
  }

  /** Splits one field off the front, when there is one. */
  function ParseField(b: Bytes): (r: Option<(Bytes, Bytes)>)
    ensures r.Some? ==> |r.value.1| < |b|
  {
    var k := DigitRun(b);
    if k == 0 || k == |b| || b[k] != COLON then None
    else
      var n, rest := Value(b[..k]), b[k + 1..];
      if Decimal(n) != b[..k] || n > |rest| then None else Some((rest[..n], rest[n..]))
  }

  function Parse(b: Bytes): Option<seq<Bytes>> {
    if |b| == 0 then Some([])
    else
      match ParseField(b)
      case None => None
      case Some((f, rest)) =>
        match Parse(rest)
        case None => None
        case Some(fields) => Some([f] + fields)
  }

  lemma RunThenColon(d: Bytes, rest: Bytes)
    requires forall i :: 0 <= i < |d| ==> Digit(d[i])
    ensures DigitRun(d + [COLON] + rest) == |d|
  {
    var b, k := d + [COLON] + rest, DigitRun(d + [COLON] + rest);
    assert b[|d|] == COLON;
    assert forall i :: 0 <= i < |d| ==> b[i] == d[i];
  }

  lemma ParseOneField(f: Bytes, rest: Bytes)
    ensures ParseField(Field(f) + rest) == Some((f, rest))
  {
    var d, b := Decimal(|f|), Field(f) + rest;
    assert b == d + [COLON] + (f + rest);
    RunThenColon(d, f + rest);
    ValueOfDecimal(|f|);
    assert b[..|d|] == d && b[|d| + 1..] == f + rest;
    assert (f + rest)[..|f|] == f && (f + rest)[|f|..] == rest;
  }

  lemma ParsedFieldWasWritten(b: Bytes)
    requires ParseField(b).Some?
    ensures b == Field(ParseField(b).value.0) + ParseField(b).value.1
  {
    var k := DigitRun(b);
    var n, rest := Value(b[..k]), b[k + 1..];
    assert b == b[..k] + [b[k]] + rest;
    assert rest == rest[..n] + rest[n..];
  }

  lemma {:induction false} ParseUndoesEncode(fields: seq<Bytes>)
    ensures Parse(Encode(fields)) == Some(fields)
  {
    if |fields| > 0 {
      ParseOneField(fields[0], Encode(fields[1..]));
      ParseUndoesEncode(fields[1..]);
      assert fields == [fields[0]] + fields[1..];
    }
  }

  lemma {:induction false} EncodeUndoesParse(b: Bytes)
    requires Parse(b).Some?
    ensures Encode(Parse(b).value) == b
    decreases |b|
  {
    if |b| > 0 {
      var (f, rest) := ParseField(b).value;
      var fields := Parse(rest).value;
      ParsedFieldWasWritten(b);
      EncodeUndoesParse(rest);
      assert Parse(b).value == [f] + fields;
      assert ([f] + fields)[1..] == fields;
    }
  }

  /** The parser accepts exactly the encodings, and returns the list that was encoded. */
  lemma ParseIsExact(b: Bytes, fields: seq<Bytes>)
    ensures Parse(b) == Some(fields) <==> b == Encode(fields)
  {
    ParseUndoesEncode(fields);
    if Parse(b) == Some(fields) {
      EncodeUndoesParse(b);
    }
  }

  lemma UniquelyDecodable(a: seq<Bytes>, b: seq<Bytes>)
    ensures Encode(a) == Encode(b) <==> a == b
  {
    ParseUndoesEncode(a);
    ParseUndoesEncode(b);
  }

  /** The loop that feeds the fields to the authenticator writes exactly their encoding. */
  method WriteFields(fields: seq<Bytes>) returns (input: Bytes)
    ensures input == Encode(fields)
  {
    input := [];
    for i := 0 to |fields|
      invariant input + Encode(fields[i..]) == Encode(fields)
    {
      assert fields[i..] == [fields[i]] + fields[i + 1..];
      assert input + Encode(fields[i..]) == (input + Field(fields[i])) + Encode(fields[i + 1..]);
      input := input + Decimal(|fields[i]|);
      input := input + [COLON];
      input := input + fields[i];
    }
  }

  // ----- What the protocols authenticate -----

  datatype Purpose = IceAuth | IceCandidates | Snapshot | Ready | Completion

  /** A statement made under a shared key: which protocol, which session, who says it, and what. */
  datatype Statement = Statement(purpose: Purpose, code: Bytes, role: Bytes, fields: seq<Bytes>)

  function Label(p: Purpose): string {
    match p
    case IceAuth => "wormzy-ice-auth-v1"
    case IceCandidates => "wormzy-ice-candidates-v1"
    case Snapshot => "wormzy-self-snapshot-auth-v1"
    case Ready => "wormzy-legacy-candidates-ready-v1"
    case Completion => "wormzy-transfer-completion-message-v1"
  }

  function MacFields(s: Statement): seq<Bytes> {
    [Text(Label(s.purpose)), s.code, s.role] + s.fields
  }

  lemma LabelsDiffer(a: Purpose, b: Purpose)
    ensures Text(Label(a)) == Text(Label(b)) <==> a == b
  {
    assert |Label(IceAuth)| == 18 && |Label(IceCandidates)| == 24 && |Label(Snapshot)| == 28;
    assert |Label(Ready)| == 33 && |Label(Completion)| == 37;
  }

  /** Two statements share an authenticator input only when they are the same statement. */
  lemma StatementsNeverShareInput(a: Statement, b: Statement)
    ensures Encode(MacFields(a)) == Encode(MacFields(b)) <==> a == b
  {
    UniquelyDecodable(MacFields(a), MacFields(b));
    if MacFields(a) == MacFields(b) {
      assert MacFields(a)[0] == MacFields(b)[0] && MacFields(a)[1] == MacFields(b)[1];
      assert MacFields(a)[2] == MacFields(b)[2];
      assert a.fields == MacFields(a)[3..] == MacFields(b)[3..] == b.fields;
      LabelsDiffer(a.purpose, b.purpose);
    }
  }

  // ----- File receipts -----

  function HexDigit(n: int): byte
    requires 0 <= n < 16
  {
    if n < 10 then 48 + n else 87 + n
  }

  function Hex(b: Bytes): (h: Bytes)
    ensures |h| == 2 * |b|
  {
    if |b| == 0 then [] else [HexDigit(b[0] / 16), HexDigit(b[0] % 16)] + Hex(b[1..])
  }

  /** Sixteen lower-case digits, and a colon after a length. */
  lemma DigitsAreText(n: int)
    requires 0 <= n < 16
    ensures HexDigit(n) == "0123456789abcdef"[n] as int
    ensures n < 10 ==> DigitOf(n) == "0123456789"[n] as int
    ensures COLON == ':' as int
  {
    assert "0123456789abcdef" ==
           ['0', '1', '2', '3', '4', '5', '6', '7', '8', '9', 'a', 'b', 'c', 'd', 'e', 'f'];
    assert "0123456789" == ['0', '1', '2', '3', '4', '5', '6', '7', '8', '9'];
  }

  lemma {:induction false} HexInjective(a: Bytes, b: Bytes)
    ensures Hex(a) == Hex(b) <==> a == b
  {
    if Hex(a) == Hex(b) && |a| > 0 {
      assert Hex(a)[0] == Hex(b)[0] && Hex(a)[1] == Hex(b)[1];
      assert Hex(a[1..]) == Hex(a)[2..] == Hex(b)[2..] == Hex(b[1..]);
      HexInjective(a[1..], b[1..]);
      assert a == [a[0]] + a[1..] && b == [b[0]] + b[1..];
    }
  }

  /** What a completion message says: this role, about a file of this size and digest. */
  function Receipt(code: Bytes, role: Bytes, size: nat, digest: Bytes): Statement {
    Statement(Completion, code, role, [Decimal(size), Hex(digest)])
  }

  lemma ReceiptInjective(code: Bytes, role: Bytes, size: nat, digest: Bytes,
                         code': Bytes, role': Bytes, size': nat, digest': Bytes)
    ensures (Encode(MacFields(Receipt(code, role, size, digest)))
             == Encode(MacFields(Receipt(code', role', size', digest'))))
            <==> (code == code' && role == role' && size == size' && digest == digest')
  {
    var s, s' := Receipt(code, role, size, digest), Receipt(code', role', size', digest');
    StatementsNeverShareInput(s, s');
    DecimalInjective(size, size');
    HexInjective(digest, digest');
    if s == s' {
      assert s.fields[0] == s'.fields[0] && s.fields[1] == s'.fields[1];
    }
  }

  // ----- Key confirmation over QUIC -----

  const WORD: int := 0x1_0000_0000

  const CONFIRMATION_LABEL: string := "wormzy-quic-peer-confirmation-v2"

  function LowByte(n: int): byte {
    n % 256
  }

  /** A big-endian 32-bit word; longer values keep their low 32 bits. */
  function Word(n: nat): (w: Bytes)
    ensures |w| == 4
  {
    [LowByte(n / 256 / 256 / 256), LowByte(n / 256 / 256), LowByte(n / 256), LowByte(n)]
  }

  function FromWord(w: Bytes): nat
    requires |w| == 4
  {
    ((w[0] as int * 256 + w[1]) * 256 + w[2]) * 256 + w[3]
  }

  lemma WordValue(n: nat)
    ensures FromWord(Word(n)) == n % WORD
  {
    var high := n / 256 / 256 / 256 / 256;
    assert n == high * WORD + FromWord(Word(n));
  }

  function EncodeWords(fields: seq<Bytes>): Bytes {
    if |fields| == 0 then [] else Word(|fields[0]|) + fields[0] + EncodeWords(fields[1..])
  }

  function ParseWords(b: Bytes): Option<seq<Bytes>> {
    if |b| == 0 then Some([])
    else if |b| < 4 || FromWord(b[..4]) > |b| - 4 then None
    else
      var n := FromWord(b[..4]);
      match ParseWords(b[4 + n..])
      case None => None
      case Some(fields) => Some([b[4..4 + n]] + fields)
  }

  lemma WordFieldAt(f: Bytes, rest: Bytes)
    requires |f| < WORD
    ensures var b := Word(|f|) + f + rest;
            FromWord(b[..4]) == |f| && b[4..4 + |f|] == f && b[4 + |f|..] == rest
  {
    var b := Word(|f|) + f + rest;
    WordValue(|f|);
    assert b[..4] == Word(|f|);
  }

  lemma {:induction false} WordsRoundTrip(fields: seq<Bytes>)
    requires forall f :: f in fields ==> |f| < WORD
    ensures ParseWords(EncodeWords(fields)) == Some(fields)
  {
    if |fields| > 0 {
      WordFieldAt(fields[0], EncodeWords(fields[1..]));
      WordsRoundTrip(fields[1..]);
      assert fields == [fields[0]] + fields[1..];
    }
  }

  method WriteWords(fields: seq<Bytes>) returns (input: Bytes)
    ensures input == EncodeWords(fields)
  {
    input := [];
    for i := 0 to |fields|
      invariant input + EncodeWords(fields[i..]) == EncodeWords(fields)
    {
      assert fields[i..] == [fields[i]] + fields[i + 1..];
      assert input + EncodeWords(fields[i..])
          == (input + (Word(|fields[i]|) + fields[i])) + EncodeWords(fields[i + 1..]);
      input := input + Word(|fields[i]|);
      input := input + fields[i];
    }
  }

  function Confirmation(role: Bytes, rest: seq<Bytes>): Bytes {
    EncodeWords([Text(CONFIRMATION_LABEL), role] + rest)
  }

  /** Confirmations are told apart by role and fields, as long as lengths fit a 32-bit word. */
  lemma ConfirmationInjective(role: Bytes, rest: seq<Bytes>, role': Bytes, rest': seq<Bytes>)
    requires |role| < WORD && |role'| < WORD
    requires forall f :: f in rest + rest' ==> |f| < WORD
    ensures Confirmation(role, rest) == Confirmation(role', rest') <==> role == role' && rest == rest'
  {
    var a, b := [Text(CONFIRMATION_LABEL), role] + rest, [Text(CONFIRMATION_LABEL), role'] + rest';
    assert forall f :: f in a + b ==> |f| < WORD;
    WordsRoundTrip(a);
    WordsRoundTrip(b);
    if a == b {
      assert a[1] == b[1] && a[2..] == b[2..];
    }
  }

  /** A confirmation never equals another protocol's input, whatever its fields are. */
  lemma ConfirmationStandsApart(role: Bytes, rest: seq<Bytes>, s: Statement)
    ensures Confirmation(role, rest) != Encode(MacFields(s))
  {
    assert |CONFIRMATION_LABEL| == 32;
    assert Confirmation(role, rest)[0] == 0;
    var d := Decimal(|Text(Label(s.purpose))|);
    assert Encode(MacFields(s))[0] == d[0];
    assert Digit(d[0]);
  }
}
