/** The login of a device: three texts, the last of them the signature. */
module Sign {
  import opened Sha256
  import Sha256Stream
  import opened Hmac

  // ----- text

  /** A C string: no NUL, bytes only. */
  predicate Text(s: string) {
    forall i :: 0 <= i < |s| ==> '\0' < s[i] < 256 as char
  }

  function Bytes(s: string): (r: seq<byte>)
    requires Text(s)
    ensures |r| == |s|
  {
    seq(|s|, i requires 0 <= i < |s| => s[i] as int as byte)
  }

  // ----- hexadecimal

  function Digit(n: byte): char
    requires n < 16
  {
    "0123456789ABCDEF"[n as int]
  }

  function HighDigit(b: byte): char {
    Digit((b >> 4) & 0xF)
  }

  function LowDigit(b: byte): char {
    Digit(b & 0xF)
  }

  function Hex(s: seq<byte>): (r: string)
    ensures |r| == 2 * |s|
  {
    if s == [] then "" else [HighDigit(s[0]), LowDigit(s[0])] + Hex(s[1..])
  }

  /** The value of a digit in either case. */
  function Value(c: char): (n: byte)
    ensures n < 16
  {
    match c
    case '1' => 1 case '2' => 2 case '3' => 3 case '4' => 4 case '5' => 5
    case '6' => 6 case '7' => 7 case '8' => 8 case '9' => 9
    case 'A' => 10 case 'B' => 11 case 'C' => 12 case 'D' => 13 case 'E' => 14 case 'F' => 15
    case 'a' => 10 case 'b' => 11 case 'c' => 12 case 'd' => 13 case 'e' => 14 case 'f' => 15
    case _ => 0
  }

  function Unpair(high: char, low: char): byte {
    (Value(high) << 4) | Value(low)
  }

  function Unhex(s: string): seq<byte>
    decreases |s|
  {
    if |s| < 2 then [] else [Unpair(s[0], s[1])] + Unhex(s[2..])
  }

  lemma ValueOfDigit(n: byte)
    requires n < 16
    ensures Value(Digit(n)) == n
  {
    var k := n as int;
    assert k as byte == n;
  }

  lemma Nibbles(b: byte)
    ensures (((b >> 4) & 0xF) << 4) | (b & 0xF) == b && (b >> 4) & 0xF < 16 && b & 0xF < 16
  {
  }

  lemma PairRoundTrip(b: byte)
    ensures Unpair(HighDigit(b), LowDigit(b)) == b
  {
    hide Digit, Value;
    Nibbles(b);
    ValueOfDigit((b >> 4) & 0xF);
    ValueOfDigit(b & 0xF);
  }

  /** Decoding inverts encoding. */
  lemma {:induction false} HexRoundTrip(s: seq<byte>)
    ensures Unhex(Hex(s)) == s
  {
    hide HighDigit, LowDigit, Unpair;
    if s != [] {
      HexRoundTrip(s[1..]);
      PairRoundTrip(s[0]);
      assert Hex(s)[2..] == Hex(s[1..]);
    }
  }

  /** Two upper-case digits a byte, the more significant first. */
  lemma {:induction false} HexAt(s: seq<byte>, i: nat)
    requires i < |s|
    ensures Hex(s)[2 * i] == "0123456789ABCDEF"[s[i] as int / 16]
    ensures Hex(s)[2 * i + 1] == "0123456789ABCDEF"[s[i] as int % 16]
  {
    hide Digit, HighDigit, LowDigit;
    if i == 0 {
      DigitsOf(s[0]);
    } else {
      HexAt(s[1..], i - 1);
      assert Hex(s)[2..] == Hex(s[1..]);
    }
  }

  lemma DigitsOf(b: byte)
    ensures HighDigit(b) == "0123456789ABCDEF"[b as int / 16] && LowDigit(b) == "0123456789ABCDEF"[b as int % 16]
  {
    NibblesOf(b);
  }

  lemma NibblesOf(b: byte)
    ensures ((b >> 4) & 0xF) as int == b as int / 16 && (b & 0xF) as int == b as int % 16
  {
    assert (b >> 4) & 0xF == b / 16 && b & 0xF == b % 16;
  }

  // ----- strings in zeroed buffers

  /** The buffer holds the string: its bytes, then a NUL. */
  ghost predicate Holds(b: array<char>, s: string)
    reads b
  {
    |s| < b.Length && b[..|s|] == s && b[|s|] == '\0' && Text(s)
  }

  method Strlen(b: array<char>, ghost s: string) returns (n: nat)
    requires Holds(b, s)
    ensures n == |s|
  {
    n := 0;
    while b[n] != '\0'
      invariant n <= |s|
      decreases |s| - n
    {
      assert b[n] == b[..|s|][n];
      n := n + 1;
    }
  }

  /** `memcpy`. */
  method Put(b: array<char>, at: nat, s: string)
    requires at + |s| <= b.Length
    modifies b
    ensures b[..] == old(b[..at]) + s + old(b[at + |s|..])
  {
    forall i | 0 <= i < |s| { b[at + i] := s[i]; }
  }

  /** `memcpy(b + strlen(b), s, strlen(s))` on a buffer that is zero behind its string. */
  method Append(b: array<char>, s: string, ghost was: string)
    requires Holds(b, was) && Text(s) && |was| + |s| < b.Length
    requires forall i :: |was| <= i < b.Length ==> b[i] == '\0'
    modifies b
    ensures Holds(b, was + s)
    ensures forall i :: |was| + |s| <= i < b.Length ==> b[i] == '\0'
  {
    var n := Strlen(b, was);
    Put(b, n, s);
  }

  /** Copies a string and its NUL, and nothing else. */
  method Copy(b: array<char>, s: string)
    requires |s| < b.Length && Text(s)
    modifies b
    ensures Holds(b, s) && b[|s| + 1..] == old(b[|s| + 1..])
  {
    Put(b, 0, s);
    b[|s|] := '\0';
  }

  method Hex2Str(input: seq<byte>, output: array<char>)
    requires 2 * |input| <= output.Length
    modifies output
    ensures output[..] == Hex(input) + old(output[2 * |input|..])
  {
    hide HighDigit, LowDigit, Hex;
    HexEmpty();
    var i, j := 0, 0;
    while i < |input|
      invariant 0 <= i <= |input| && j == 2 * i
      invariant output[..2 * i] == Hex(input[..i])
      invariant output[2 * i..] == old(output[..])[2 * i..]
    {
      HexNext(input, i);
      output[j] := HighDigit(input[i]);
      j := j + 1;
      output[j] := LowDigit(input[i]);
      j := j + 1;
      i := i + 1;
    }
    assert input[..|input|] == input;
  }

  lemma HexEmpty()
    ensures Hex([]) == ""
  {
  }

  lemma {:induction false} HexNext(s: seq<byte>, i: nat)
    requires i < |s|
    ensures Hex(s[..i + 1]) == Hex(s[..i]) + [HighDigit(s[i]), LowDigit(s[i])]
  {
    hide HighDigit, LowDigit;
    if i == 0 {
      assert s[..1] == [s[0]] && s[..0] == [];
    } else {
      HexNext(s[1..], i - 1);
      assert s[..i + 1][1..] == s[1..][..i] && s[..i][1..] == s[1..][..i - 1];
      assert s[1..][i - 1] == s[i];
    }
  }

  // ----- the login

  const PRODUCTKEY_MAXLEN: nat := 20
  const DEVICENAME_MAXLEN: nat := 32
  const DEVICESECRET_MAXLEN: nat := 64
  const TIMESTAMP_VALUE := "2524608000000"

  function MqttClientIdKv(): (s: string)
    ensures |s| == 82 && Text(s)
  {
    "|timestamp=2524608000000," + "_v=paho-c-1.0.0," + "securemode=3," + "signmethod=hmacsha256," + "lan=C|"
  }

  function DeviceId(productKey: string, deviceName: string): string {
    deviceName + "&" + productKey
  }

  /** What is signed. */
  function Source(productKey: string, deviceName: string): (s: string)
    requires Text(productKey) && Text(deviceName)
    ensures Text(s)
  {
    "clientId" + DeviceId(productKey, deviceName) + "deviceName" + deviceName
    + "productKey" + productKey + "timestamp" + TIMESTAMP_VALUE
  }

  lemma SourceText(productKey: string, deviceName: string)
    requires Text(productKey) && Text(deviceName)
    ensures Source(productKey, deviceName)
              == "clientId" + deviceName + "&" + productKey + "deviceName" + deviceName
                 + "productKey" + productKey + "timestamp2524608000000"
  {
    var id := DeviceId(productKey, deviceName);
    var head := "clientId" + deviceName + "&" + productKey;
    assert "clientId" + id == head;
    var body := head + "deviceName" + deviceName + "productKey" + productKey;
    assert Source(productKey, deviceName) == body + "timestamp" + TIMESTAMP_VALUE;
    StampText(body);
  }

  lemma StampText(body: string)
    ensures body + "timestamp" + TIMESTAMP_VALUE == body + "timestamp2524608000000"
  {
    assert "timestamp" + TIMESTAMP_VALUE == "timestamp2524608000000";
    assert body + "timestamp" + TIMESTAMP_VALUE == body + ("timestamp" + TIMESTAMP_VALUE);
  }

  method MakeDeviceId(productKey: string, deviceName: string) returns (b: array<char>)
    requires Text(productKey) && Text(deviceName)
    requires |productKey| <= PRODUCTKEY_MAXLEN && |deviceName| <= DEVICENAME_MAXLEN
    ensures fresh(b) && b.Length == 54 && Holds(b, DeviceId(productKey, deviceName))
  {
    b := new char[54](_ => '\0');
    Append(b, deviceName, "");
    assert "" + deviceName == deviceName;
    Append(b, "&", deviceName);
    Append(b, productKey, deviceName + "&");
  }

  method AppendField(b: array<char>, name: string, value: string, ghost was: string)
    requires Holds(b, was) && Text(name) && Text(value) && |was| + |name| + |value| < b.Length
    requires forall i :: |was| <= i < b.Length ==> b[i] == '\0'
    modifies b
    ensures Holds(b, was + name + value)
    ensures forall i :: |was + name + value| <= i < b.Length ==> b[i] == '\0'
  {
    Append(b, name, was);
    Append(b, value, was + name);
  }

  method MakeSource(productKey: string, deviceName: string, deviceId: string) returns (b: array<char>)
    requires Text(productKey) && Text(deviceName) && deviceId == DeviceId(productKey, deviceName)
    requires |productKey| <= PRODUCTKEY_MAXLEN && |deviceName| <= DEVICENAME_MAXLEN
    ensures fresh(b) && b.Length == 200 && Holds(b, Source(productKey, deviceName))
  {
    b := new char[200](_ => '\0');
    AppendField(b, "clientId", deviceId, "");
    ghost var s := "clientId" + deviceId;
    assert "" + "clientId" + deviceId == s;
    AppendField(b, "deviceName", deviceName, s);
    s := s + "deviceName" + deviceName;
    AppendField(b, "productKey", productKey, s);
    s := s + "productKey" + productKey;
    AppendField(b, "timestamp", TIMESTAMP_VALUE, s);
  }

  method SetClientId(clientId: array<char>, id: string)
    requires clientId.Length == 150 && |id| <= 53 && Text(id)
    modifies clientId
    ensures Holds(clientId, id + MqttClientIdKv())
  {
    hide MqttClientIdKv;
    Put(clientId, 0, id);
    Put(clientId, |id|, MqttClientIdKv());
    clientId[|id| + |MqttClientIdKv()|] := '\0';
  }

  method SetPassword(source: string, secret: string, password: array<char>)
    requires Text(source) && Text(secret) && |source| < 200 && |secret| <= DEVICESECRET_MAXLEN
    requires password.Length == 65
    modifies password
    ensures password[..] == Hex(Mac(Bytes(secret), Bytes(source))) + "\0"
  {
    hide Mac, Hex, Bytes;
    var macRes := new byte[32](_ => 0);
    HmacSha256(Bytes(source), Bytes(secret), macRes);
    assert macRes[..] == Mac(Bytes(secret), Bytes(source));
    forall i | 0 <= i < 65 { password[i] := '\0'; }
    var mac := macRes[..];
    assert 2 * |mac| == 64 && password[64..] == "\0";
    assert mac == Mac(Bytes(secret), Bytes(source));
    Hex2Str(mac, password);
    assert password[..] == Hex(mac) + "\0";
  }

  /** Names that are too long are refused and nothing is written. Otherwise the three
      buffers hold the client id, the user name and the signature in hexadecimal. */
  method AiotMqttSign(productKey: string, deviceName: string, deviceSecret: string,
                      clientId: array<char>, username: array<char>, password: array<char>)
    returns (res: int)
    requires Text(productKey) && Text(deviceName) && Text(deviceSecret)
    requires clientId.Length == 150 && username.Length == 64 && password.Length == 65
    requires clientId != username && clientId != password && username != password
    modifies clientId, username, password
    ensures res == 0 || res == -1
    ensures res == -1 <==>
            |productKey| > PRODUCTKEY_MAXLEN || |deviceName| > DEVICENAME_MAXLEN || |deviceSecret| > DEVICESECRET_MAXLEN
    ensures res == -1 ==> unchanged(clientId, username, password)
    ensures res == 0 ==>
              Holds(clientId, deviceName + "&" + productKey
                + ("|timestamp=2524608000000," + "_v=paho-c-1.0.0," + "securemode=3," + "signmethod=hmacsha256," + "lan=C|"))
    ensures res == 0 ==> Holds(username, deviceName + "&" + productKey)
    ensures res == 0 ==>
              && Source(productKey, deviceName)
                   == "clientId" + deviceName + "&" + productKey + "deviceName" + deviceName
                      + "productKey" + productKey + "timestamp2524608000000"
              && password[..] == Hex(Mac(Bytes(deviceSecret), Bytes(Source(productKey, deviceName)))) + "\0"
  {
    hide Mac, Hex, Bytes, Source;
    SourceText(productKey, deviceName);
    if |productKey| > PRODUCTKEY_MAXLEN || |deviceName| > DEVICENAME_MAXLEN || |deviceSecret| > DEVICESECRET_MAXLEN {
      return -1;
    }
    var deviceId := MakeDeviceId(productKey, deviceName);
    ghost var id := DeviceId(productKey, deviceName);
    var n := Strlen(deviceId, id);
    SetClientId(clientId, deviceId[..n]);
    Copy(username, deviceId[..n]);
    var macSrc := MakeSource(productKey, deviceName, deviceId[..n]);
    var m := Strlen(macSrc, Source(productKey, deviceName));
    SetPassword(macSrc[..m], deviceSecret, password);
    res := 0;
  }
}
