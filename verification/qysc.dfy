/** `qysc.ts`: the queue that serialises GATT writes, and the MAC address the client derives
    from the advertised device name. */
module Qysc {
  import opened Base

  /** How an operation's own promise ends: the wrapper resolves it with the operation's result
      or rejects it with the error the operation threw. */
  datatype Settlement = Resolved | Rejected

  /** The operations of a settlement log, in the order they ran. */
  function OpsOf<Op>(log: seq<(Op, Settlement)>): (ops: seq<Op>)
    ensures |ops| == |log| && forall i :: 0 <= i < |log| ==> ops[i] == log[i].0
  {
    seq(|log|, i requires 0 <= i < |log| => log[i].0)
  }

  /** `GattOperationQueue`, run as a sequential state machine. The drain loop of processQueue
      is suspended at `await operation()` while `running` holds that operation; its completion
      is the event `OperationSettled`, and an `Enqueue` may come in between. `settled` records
      each finished operation with how its own promise ended, and `submitted` every operation
      ever enqueued. */
  class GattOperationQueue<Op> {
    var queue: seq<Op>
    var processing: bool
    var running: Option<Op>
    var settled: seq<(Op, Settlement)>
    ghost var submitted: seq<Op>

    /** The operations not yet finished, the one being awaited first. */
    function Pending(): seq<Op>
      reads this
    {
      (if running.Some? then [running.value] else []) + queue
    }

    /** A drain is in progress exactly when an operation is being awaited; an idle queue is
        empty; and operations finish, run and wait in the order they were submitted. */
    ghost predicate Valid()
      reads this
    {
      (processing <==> running.Some?) &&
      (!processing ==> queue == []) &&
      submitted == OpsOf(settled) + Pending()
    }

    constructor ()
      ensures Valid()
      ensures queue == [] && !processing && running == None && settled == [] && submitted == []
    {
      queue, processing, running, settled := [], false, None, [];
      submitted := [];
    }

    /** `enqueue(operation)`: append the wrapped operation, then call processQueue, which
        starts it at once when no drain is in progress. */
    method Enqueue(op: Op)
      requires Valid()
      modifies this
      ensures Valid()
      ensures submitted == old(submitted) + [op]
      ensures settled == old(settled)
      ensures processing
      ensures old(processing) ==> running == old(running) && queue == old(queue) + [op]
      ensures !old(processing) ==> running == Some(op) && queue == []
    {
      queue := queue + [op];
      submitted := submitted + [op];
      ProcessQueue();
    }

    /** `processQueue()`: nothing when a drain is in progress or the queue is empty; otherwise
        set `processing` and start the front operation. */
    method ProcessQueue()
      requires processing <==> running.Some?
      requires !processing ==> |queue| <= 1
      requires submitted == OpsOf(settled) + Pending()
      modifies this
      ensures Valid()
      ensures submitted == old(submitted) && settled == old(settled)
      ensures old(processing) || old(queue) == [] ==>
        processing == old(processing) && running == old(running) && queue == old(queue)
      ensures !old(processing) && old(queue) != [] ==>
        processing && running == Some(old(queue)[0]) && queue == old(queue)[1..]
    {
      if processing || |queue| == 0 {
        return;
      }
      processing := true;
      running := Some(queue[0]);
      queue := queue[1..];
    }

    /** The awaited operation finishes with `outcome`. The wrapper catches a failure, so
        either way the operation is settled and the loop goes on: it starts the next queued
        operation, or clears `processing` when none is left. */
    method OperationSettled(outcome: Settlement)
      requires Valid() && processing
      modifies this
      ensures Valid()
      ensures submitted == old(submitted)
      ensures settled == old(settled) + [(old(running).value, outcome)]
      ensures old(queue) != [] ==> processing && running == Some(old(queue)[0]) && queue == old(queue)[1..]
      ensures old(queue) == [] ==> !processing && running == None && queue == []
    {
      settled := settled + [(running.value, outcome)];
      if |queue| > 0 {
        running := Some(queue[0]);
        queue := queue[1..];
      } else {
        running := None;
        processing := false;
      }
    }
  }

  /** Enqueue every operation of `ops` on a fresh queue, then let the drain run until the
      queue is idle, each operation ending as `outcome` says: every operation runs once, in
      submission order, and a failure settles only its own promise. */
  method DrainAll<Op>(ops: seq<Op>, outcome: Op -> Settlement) returns (log: seq<(Op, Settlement)>)
    ensures |log| == |ops|
    ensures forall i :: 0 <= i < |ops| ==> log[i] == (ops[i], outcome(ops[i]))
  {
    var q := new GattOperationQueue<Op>();
    for i := 0 to |ops|
      invariant q.Valid() && q.submitted == ops[..i] && q.settled == []
    {
      q.Enqueue(ops[i]);
    }
    while q.processing
      invariant q.Valid() && q.submitted == ops
      invariant forall j :: 0 <= j < |q.settled| ==> q.settled[j].1 == outcome(q.settled[j].0)
      decreases |q.queue| + (if q.processing then 1 else 0)
    {
      q.OperationSettled(outcome(q.running.value));
    }
    log := q.settled;
    assert OpsOf(log) == ops;
  }

  /** An operation enqueued while another is awaited runs after it, and one that fails does
      not stop the operations after it. */
  method EnqueueWhileRunning<Op>(a: Op, b: Op, c: Op, outcome: Op -> Settlement) returns (log: seq<(Op, Settlement)>)
    ensures log == [(a, Rejected), (b, outcome(b)), (c, outcome(c))]
  {
    var q := new GattOperationQueue<Op>();
    q.Enqueue(a);
    q.Enqueue(b);
    q.OperationSettled(Rejected);
    q.Enqueue(c);
    q.OperationSettled(outcome(b));
    q.OperationSettled(outcome(c));
    log := q.settled;
  }

  /** `QYSC_MAC_PREFIX`. */
  const MacPrefix: seq<byte> := [0xcc, 0xa3, 0x00, 0x00]

  /** ECMAScript WhiteSpace and LineTerminator: what `trim` and `parseInt` skip. */
  predicate IsJsWhitespace(c: char)
  {
    var n := c as int;
    n == 0x09 || n == 0x0B || n == 0x0C || n == 0x20 || n == 0xA0 || n == 0xFEFF ||
    n == 0x1680 || 0x2000 <= n <= 0x200A || n == 0x202F || n == 0x205F || n == 0x3000 ||
    n == 0x0A || n == 0x0D || n == 0x2028 || n == 0x2029
  }

  /** The string without its leading whitespace. */
  function TrimStart(s: string): (r: string)
    ensures |r| <= |s| && r == s[|s| - |r|..]
    ensures forall i :: 0 <= i < |s| - |r| ==> IsJsWhitespace(s[i])
    ensures r != [] ==> !IsJsWhitespace(r[0])
  {
    if s != [] && IsJsWhitespace(s[0]) then TrimStart(s[1..]) else s
  }

  /** The string without its trailing whitespace. */
  function TrimEnd(s: string): (r: string)
    ensures |r| <= |s| && r == s[..|r|]
    ensures forall i :: |r| <= i < |s| ==> IsJsWhitespace(s[i])
    ensures r != [] ==> !IsJsWhitespace(r[|r| - 1])
  {
    if s != [] && IsJsWhitespace(s[|s| - 1]) then TrimEnd(s[..|s| - 1]) else s
  }

  /** `String.prototype.trim`: the middle of the string, with only whitespace cut off at
      either end, and starting and ending with a character that is not whitespace. */
  function Trim(s: string): (r: string)
    ensures var k := |s| - |TrimStart(s)|;
      k + |r| <= |s| && r == s[k..k + |r|] &&
      (forall i :: 0 <= i < k ==> IsJsWhitespace(s[i])) &&
      (forall i :: k + |r| <= i < |s| ==> IsJsWhitespace(s[i]))
    ensures r != [] ==> !IsJsWhitespace(r[0]) && !IsJsWhitespace(r[|r| - 1])
  {
    var t := TrimStart(s);
    var r := TrimEnd(t);
    assert r != [] ==> r[0] == t[0];
    r
  }

  /** `s.substring(s.length - 4)`: the last four characters, or the whole string when it is
      shorter (a negative start counts as 0). */
  function LastFour(s: string): (r: string)
    ensures |r| == Min(|s|, 4) && r == s[|s| - |r|..]
  {
    if |s| >= 4 then s[|s| - 4..] else s
  }

  /** The value of a hexadecimal digit, either case. */
  function HexDigit(c: char): (d: Option<nat>)
    ensures d.Some? ==> d.value < 16
  {
    if '0' <= c <= '9' then Some(c as int - '0' as int)
    else if 'a' <= c <= 'f' then Some(c as int - 'a' as int + 10)
    else if 'A' <= c <= 'F' then Some(c as int - 'A' as int + 10)
    else None
  }

  /** The longest prefix made of hexadecimal digits. */
  function HexPrefix(s: string): (r: string)
    ensures |r| <= |s| && r == s[..|r|]
    ensures forall i :: 0 <= i < |r| ==> HexDigit(r[i]).Some?
    ensures |r| < |s| ==> HexDigit(s[|r|]).None?
  {
    if s != [] && HexDigit(s[0]).Some? then [s[0]] + HexPrefix(s[1..]) else []
  }

  /** The number a string of hexadecimal digits denotes, most significant first. */
  function HexValue(digits: string): (v: nat)
    requires forall i :: 0 <= i < |digits| ==> HexDigit(digits[i]).Some?
  {
    if digits == [] then 0
    else HexValue(digits[..|digits| - 1]) * 16 + HexDigit(digits[|digits| - 1]).value
  }

  /** Where `parseInt(s, 16)` starts reading digits: after the leading whitespace, one
      optional sign and an optional `0x` or `0X`. */
  function DigitsStart(s: string): (u: string)
    ensures |u| <= |s| && u == s[|s| - |u|..]
  {
    var t := TrimStart(s);
    var v := if t != [] && (t[0] == '-' || t[0] == '+') then t[1..] else t;
    if |v| >= 2 && v[0] == '0' && (v[1] == 'x' || v[1] == 'X') then v[2..] else v
  }

  /** The sign `parseInt` reads is a minus. */
  predicate NegativeSign(s: string)
  {
    TrimStart(s) != [] && TrimStart(s)[0] == '-'
  }

  /** `parseInt(s, 16)`: NaN (None) when no hexadecimal digit follows the whitespace, sign
      and radix prefix; otherwise the signed value of the longest run of digits there. */
  function ParseHex(s: string): (r: Option<int>)
    ensures r.None? <==> HexPrefix(DigitsStart(s)) == []
    ensures r.Some? ==> r.value == (if NegativeSign(s) then -1 else 1) * HexValue(HexPrefix(DigitsStart(s)))
    ensures r.Some? && !NegativeSign(s) ==> 0 <= r.value
  {
    var digits := HexPrefix(DigitsStart(s));
    var value: int := if digits == [] then 0 else HexValue(digits);
    if digits == [] then None
    else if NegativeSign(s) then Some(-value)
    else Some(value)
  }

  /** A string that starts with a character `parseInt` can neither skip nor read as a digit
      or sign, or the empty string, parses to NaN. */
  lemma ParseHexOfNoDigit(s: string)
    requires s == [] || (HexDigit(s[0]).None? && !IsJsWhitespace(s[0]) && s[0] != '-' && s[0] != '+')
    ensures ParseHex(s) == None
  {
    assert TrimStart(s) == s;
    assert DigitsStart(s) == s;
  }

  /** A hexadecimal digit is neither whitespace, nor a sign, nor the `x` of a radix prefix. */
  lemma HexDigitIsPlain(c: char)
    requires HexDigit(c).Some?
    ensures !IsJsWhitespace(c) && c != '-' && c != '+' && c != 'x' && c != 'X'
  {
  }

  /** A hexadecimal digit followed by a character that is neither a digit nor the `x` of a
      radix prefix parses to the value of that one digit. */
  lemma {:induction false} ParseHexStopsAtNonDigit(c1: char, c2: char)
    requires HexDigit(c1).Some? && HexDigit(c2).None? && c2 != 'x' && c2 != 'X'
    ensures ParseHex([c1, c2]) == Some(HexDigit(c1).value)
  {
    var s := [c1, c2];
    HexDigitIsPlain(c1);
    assert TrimStart(s) == s;
    assert DigitsStart(s) == s;
    assert !NegativeSign(s);
    assert s[1..] == [c2];
    assert HexPrefix([c2]) == [];
    assert HexPrefix(s) == [c1];
    assert [c1][..0] == [];
    assert HexValue([c1]) == HexDigit(c1).value;
  }

  /** An element written into a Uint8Array: NaN becomes 0, any other integer is taken
      modulo 256. */
  function ByteOf(x: Option<int>): (b: byte)
    ensures x.None? ==> b == 0
    ensures x.Some? ==> (x.value - b) % 256 == 0
  {
    if x.Some? then ToUint8(x.value) else 0
  }

  /** The MAC `connectQYSC` builds from the device name: the fixed prefix, then the two
      hexadecimal pairs of the last four characters of the trimmed name. */
  function MacFromName(name: string): (mac: seq<byte>)
    ensures |mac| == 6 && mac[..4] == MacPrefix
    ensures var macName := LastFour(Trim(name));
      mac[4] == ByteOf(ParseHex(Slice(macName, 0, 2))) && mac[5] == ByteOf(ParseHex(Slice(macName, 2, 4)))
  {
    var trimmedName := Trim(name);
    var macName := LastFour(trimmedName);
    MacPrefix + [ByteOf(ParseHex(Slice(macName, 0, 2))), ByteOf(ParseHex(Slice(macName, 2, 4)))]
  }

  /** The byte two hexadecimal digits spell. */
  function HexPair(c1: char, c2: char): (b: byte)
    requires HexDigit(c1).Some? && HexDigit(c2).Some?
  {
    16 * HexDigit(c1).value + HexDigit(c2).value
  }

  /** Two hexadecimal digits parse to the byte they spell. */
  lemma ParseTwoHexDigits(c1: char, c2: char)
    requires HexDigit(c1).Some? && HexDigit(c2).Some?
    ensures ParseHex([c1, c2]) == Some(16 * HexDigit(c1).value + HexDigit(c2).value)
    ensures ByteOf(ParseHex([c1, c2])) == HexPair(c1, c2)
  {
    var s := [c1, c2];
    assert !IsJsWhitespace(c1) && TrimStart(s) == s;
    assert c1 != '-' && c1 != '+' && c2 != 'x' && c2 != 'X';
    assert s[1..] == [c2] && [c2][1..] == [];
    assert HexPrefix(s) == s;
    assert s[..1] == [c1] && [c1][..0] == [];
    assert HexValue([c1]) == HexDigit(c1).value;
    assert HexValue(s) == 16 * HexDigit(c1).value + HexDigit(c2).value;
  }

  /** A name whose trimmed form ends in four hexadecimal digits gives the MAC the prefix
      followed by the two bytes those digits spell. */
  lemma {:induction false} MacOfHexSuffix(name: string)
    requires var t := Trim(name);
      |t| >= 4 && HexDigit(t[|t| - 4]).Some? && HexDigit(t[|t| - 3]).Some? && HexDigit(t[|t| - 2]).Some? && HexDigit(t[|t| - 1]).Some?
    ensures var t := Trim(name);
      MacFromName(name) == MacPrefix + [HexPair(t[|t| - 4], t[|t| - 3]), HexPair(t[|t| - 2], t[|t| - 1])]
  {
    var t := Trim(name);
    var n := |t|;
    LastFourPairs(t);
    MacOfPairs(name, t[n - 4], t[n - 3], t[n - 2], t[n - 1]);
  }

  /** The MAC when the two pairs taken from the trimmed name are c1 c2 and c3 c4, all
      hexadecimal digits. */
  lemma {:induction false} MacOfPairs(name: string, c1: char, c2: char, c3: char, c4: char)
    requires Slice(LastFour(Trim(name)), 0, 2) == [c1, c2] && Slice(LastFour(Trim(name)), 2, 4) == [c3, c4]
    requires HexDigit(c1).Some? && HexDigit(c2).Some? && HexDigit(c3).Some? && HexDigit(c4).Some?
    ensures MacFromName(name) == MacPrefix + [HexPair(c1, c2), HexPair(c3, c4)]
  {
    var mac := MacFromName(name);
    ParseTwoHexDigits(c1, c2);
    ParseTwoHexDigits(c3, c4);
    assert mac[4] == HexPair(c1, c2) && mac[5] == HexPair(c3, c4);
    assert mac == mac[..4] + [mac[4], mac[5]];
  }

  /** The two pairs of the last four characters. */
  lemma LastFourPairs(t: string)
    requires |t| >= 4
    ensures Slice(LastFour(t), 0, 2) == [t[|t| - 4], t[|t| - 3]]
    ensures Slice(LastFour(t), 2, 4) == [t[|t| - 2], t[|t| - 1]]
  {
    var macName := LastFour(t);
    assert |macName| == 4;
    assert macName[0] == t[|t| - 4] && macName[1] == t[|t| - 3] && macName[2] == t[|t| - 2] && macName[3] == t[|t| - 1];
  }

  /** Trailing whitespace does not change the trimmed name. */
  lemma {:induction false} TrimOfSnoc(s: string, c: char)
    requires IsJsWhitespace(c)
    ensures Trim(s + [c]) == Trim(s)
    decreases |s|
  {
    var t := s + [c];
    if s == [] {
      assert TrimStart(t) == TrimStart(t[1..]);
      assert t[1..] == [];
    } else if IsJsWhitespace(s[0]) {
      assert t[1..] == s[1..] + [c];
      assert TrimStart(t) == TrimStart(s[1..] + [c]);
      assert TrimStart(s) == TrimStart(s[1..]);
      TrimOfSnoc(s[1..], c);
    } else {
      assert TrimStart(t) == t && TrimStart(s) == s;
      assert t[..|t| - 1] == s;
      assert TrimEnd(t) == TrimEnd(s);
    }
  }

  /** Whitespace around the name does not change the MAC. */
  lemma MacIgnoresSurroundingWhitespace(name: string, c: char)
    requires IsJsWhitespace(c)
    ensures MacFromName([c] + name) == MacFromName(name)
    ensures MacFromName(name + [c]) == MacFromName(name)
  {
    assert ([c] + name)[1..] == name;
    assert TrimStart([c] + name) == TrimStart(name);
    TrimOfSnoc(name, c);
  }

  /** A name with no whitespace at either end is its own trimmed form. */
  lemma TrimOfClean(s: string)
    requires s != [] && !IsJsWhitespace(s[0]) && !IsJsWhitespace(s[|s| - 1])
    ensures Trim(s) == s
  {
    assert TrimStart(s) == s;
  }

  /** The advertised name in the example of the source comment. */
  lemma ExampleMac(name: string)
    requires name == "QY-QYSC-S-01C4"
    ensures MacFromName(name) == [0xcc, 0xa3, 0x00, 0x00, 0x01, 0xc4]
  {
    assert |name| == 14 && name[0] == 'Q' && name[10] == '0' && name[11] == '1' && name[12] == 'C' && name[13] == '4';
    TrimOfClean(name);
    MacOfHexSuffix(name);
    assert HexPair('0', '1') == 0x01 && HexPair('C', '4') == 0xc4;
  }

  /** A trimmed name of at most two characters leaves the second pair empty, so the last
      MAC byte is 0. */
  lemma MacOfShortName(name: string)
    requires |Trim(name)| <= 2
    ensures MacFromName(name)[5] == 0
  {
    var t := Trim(name);
    assert LastFour(t) == t;
    assert Slice(t, 2, 4) == [];
    ParseHexOfNoDigit([]);
  }

  /** A second-to-last character that is no digit, sign or whitespace makes the last pair
      NaN, stored as 0. */
  lemma {:induction false} MacOfNonHexPair(name: string)
    requires var t := Trim(name);
      |t| >= 4 && HexDigit(t[|t| - 2]).None? && !IsJsWhitespace(t[|t| - 2]) && t[|t| - 2] != '-' && t[|t| - 2] != '+'
    ensures MacFromName(name)[5] == 0
  {
    var t := Trim(name);
    LastFourPairs(t);
    ParseHexOfNoDigit([t[|t| - 2], t[|t| - 1]]);
  }

  /** A hexadecimal digit followed by a last character that is not one gives the value of
      that single digit. */
  lemma {:induction false} MacOfHalfHexPair(name: string)
    requires var t := Trim(name);
      |t| >= 4 && HexDigit(t[|t| - 2]).Some? && HexDigit(t[|t| - 1]).None? && t[|t| - 1] != 'x' && t[|t| - 1] != 'X'
    ensures var t := Trim(name);
      MacFromName(name)[5] == HexDigit(t[|t| - 2]).value
  {
    var t := Trim(name);
    LastFourPairs(t);
    ParseHexStopsAtNonDigit(t[|t| - 2], t[|t| - 1]);
  }

  /** The MAC when the first pair taken from the trimmed name is hexadecimal and the second
      starts with a character `parseInt` cannot read. */
  lemma {:induction false} MacOfHexThenNaN(name: string, c1: char, c2: char, c3: char, c4: char)
    requires Slice(LastFour(Trim(name)), 0, 2) == [c1, c2] && Slice(LastFour(Trim(name)), 2, 4) == [c3, c4]
    requires HexDigit(c1).Some? && HexDigit(c2).Some?
    requires HexDigit(c3).None? && !IsJsWhitespace(c3) && c3 != '-' && c3 != '+'
    ensures MacFromName(name) == MacPrefix + [HexPair(c1, c2), 0]
  {
    var mac := MacFromName(name);
    ParseTwoHexDigits(c1, c2);
    ParseHexOfNoDigit([c3, c4]);
    assert mac[4] == HexPair(c1, c2) && mac[5] == 0;
    assert mac == mac[..4] + [mac[4], mac[5]];
  }

  /** A trimmed name ending in two hexadecimal digits and then a character `parseInt`
      cannot read gives the prefix, the byte of those digits, and 0. */
  lemma {:induction false} MacOfHexThenNaNSuffix(name: string)
    requires var t := Trim(name);
      |t| >= 4 && HexDigit(t[|t| - 4]).Some? && HexDigit(t[|t| - 3]).Some? &&
      HexDigit(t[|t| - 2]).None? && !IsJsWhitespace(t[|t| - 2]) && t[|t| - 2] != '-' && t[|t| - 2] != '+'
    ensures var t := Trim(name);
      MacFromName(name) == MacPrefix + [HexPair(t[|t| - 4], t[|t| - 3]), 0]
  {
    var t := Trim(name);
    var n := |t|;
    LastFourPairs(t);
    MacOfHexThenNaN(name, t[n - 4], t[n - 3], t[n - 2], t[n - 1]);
  }

  /** A name whose last pair is not hexadecimal: "G4" parses to NaN, stored as 0. */
  lemma ExampleMacNonHex(name: string)
    requires name == "QY-QYSC-S-01G4"
    ensures MacFromName(name) == [0xcc, 0xa3, 0x00, 0x00, 0x01, 0x00]
  {
    assert |name| == 14 && name[0] == 'Q' && name[10] == '0' && name[11] == '1' && name[12] == 'G' && name[13] == '4';
    TrimOfClean(name);
    MacOfHexThenNaNSuffix(name);
    assert HexPair('0', '1') == 0x01;
  }
}
