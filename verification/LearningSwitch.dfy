/** The learning Ethernet switch of Switch/switch.cpp. */
module LearningSwitch {
  import opened Options
  import opened MachineWords
  import opened Decimal

  const NUM_PORTS := 4

  type Mac = m: seq<byte> | |m| == 6 witness [0, 0, 0, 0, 0, 0]
  type Port = p: nat | p < NUM_PORTS

  const BROADCAST: Mac := [255, 255, 255, 255, 255, 255]

  /** A frame as it comes in: the port, and the two addresses. */
  datatype Frame = Frame(port: Port, src: Mac, dst: Mac)

  // ---------------------------------------------------------------------------------
  // Addresses as table keys.

  /** The bytes in decimal, with a dash between two. */
  function Joined(m: seq<byte>): string
    requires |m| > 0
  {
    if |m| == 1 then Digits(m[0]) else Digits(m[0]) + "-" + Joined(m[1..])
  }

  method GetString(m: Mac) returns (s: string)
    ensures s == Joined(m)
  {
    s := "";
    for i := 0 to 5
      invariant s + Joined(m[i..]) == Joined(m)
    {
      assert m[i..][1..] == m[i + 1..];
      s := s + Digits(m[i]) + "-";
    }
    s := s + Digits(m[5]);
  }

  /** A dash cannot be part of a number, so the first number ends at the first dash. */
  lemma FirstNumber(a: nat, b: nat, s: string, t: string)
    requires Digits(a) + "-" + s == Digits(b) + "-" + t
    ensures a == b && s == t
  {
    var x, y := Digits(a), Digits(b);
    var left, right := x + "-" + s, y + "-" + t;
    assert left[|x|] == '-' && right[|y|] == '-';
    assert forall i | 0 <= i < |x| :: left[i] == x[i];
    assert forall i | 0 <= i < |y| :: right[i] == y[i];
    assert |x| == |y|;
    assert x == left[..|x|] && y == right[..|y|];
    assert s == left[|x| + 1..] && t == right[|y| + 1..];
    DigitsInjective(a, b);
    hide Digits;
  }

  /** Different addresses never share a table key. */
  lemma {:induction false} NamesDiffer(m: seq<byte>, n: seq<byte>)
    requires |m| == |n| > 0 && Joined(m) == Joined(n)
    ensures m == n
  {
    if |m| == 1 {
      DigitsInjective(m[0], n[0]);
    } else {
      FirstNumber(m[0], n[0], Joined(m[1..]), Joined(n[1..]));
      NamesDiffer(m[1..], n[1..]);
      assert m == [m[0]] + m[1..] && n == [n[0]] + n[1..];
    }
  }

  /** Only the all-ones address is taken for the broadcast address. */
  lemma BroadcastName(m: Mac)
    ensures Joined(m) == "255-255-255-255-255-255" <==> m == BROADCAST
  {
    Digits255();
    hide Digits;
    Repeat([255], "255");
    Repeat([255, 255], "255-255");
    Repeat([255, 255, 255], "255-255-255");
    Repeat([255, 255, 255, 255], "255-255-255-255");
    Repeat([255, 255, 255, 255, 255], "255-255-255-255-255");
    if Joined(m) == Joined(BROADCAST) { NamesDiffer(m, BROADCAST); }
  }

  lemma Repeat(m: seq<byte>, s: string)
    requires |m| > 0 && Joined(m) == s
    ensures Joined([255] + m) == "255-" + s
  {
    Digits255();
    hide Digits;
    assert ([255] + m)[1..] == m;
    assert "255" + "-" == "255-";
  }

  lemma Digits255()
    ensures Digits(255) == "255"
  {
    assert Digits(25) == "25";
  }

  // ---------------------------------------------------------------------------------
  // Learning and forwarding.

  type Table = map<string, Port>

  /** All ports but one, in order. */
  function Others(port: Port, n: nat): (out: seq<Port>)
    requires n <= NUM_PORTS
    ensures port !in out && forall p: Port | p < n && p != port :: p in out
    ensures forall i | 0 <= i < |out| :: out[i] < n
    ensures Distinct(out)
  {
    if n == 0 then [] else if n - 1 == port then Others(port, n - 1) else Others(port, n - 1) + [n - 1]
  }

  /** What the table is after a frame, and the ports it is sent to. */
  function Forward(table: Table, f: Frame): (Table, seq<Port>) {
    var learned := table[Joined(f.src) := f.port];
    var dest := Joined(f.dst);
    if dest == "255-255-255-255-255-255" then (learned, Others(f.port, NUM_PORTS))
    else if dest in learned then (learned, [learned[dest]])
    else (learned, Others(f.port, NUM_PORTS))
  }

  function TableAfter(frames: seq<Frame>): Table {
    if frames == [] then map[] else Forward(TableAfter(frames[..|frames| - 1]), frames[|frames| - 1]).0
  }

  /** The port of the last frame from an address. */
  function LastPort(frames: seq<Frame>, mac: Mac): Option<Port> {
    if frames == [] then None
    else if frames[|frames| - 1].src == mac then Some(frames[|frames| - 1].port)
    else LastPort(frames[..|frames| - 1], mac)
  }

  /** After every run the table knows exactly the addresses heard, each at the port of its last
      frame. */
  lemma {:induction false} TableIsLastPort(frames: seq<Frame>, mac: Mac)
    ensures (if Joined(mac) in TableAfter(frames) then Some(TableAfter(frames)[Joined(mac)]) else None)
            == LastPort(frames, mac)
  {
    if frames != [] {
      TableIsLastPort(frames[..|frames| - 1], mac);
      if Joined(frames[|frames| - 1].src) == Joined(mac) {
        NamesDiffer(frames[|frames| - 1].src, mac);
      }
      hide Joined;
    }
  }

  /** Every station sends from one port. */
  ghost predicate Located(frames: seq<Frame>, where: Mac -> Port) {
    forall i | 0 <= i < |frames| :: frames[i].port == where(frames[i].src)
  }

  ghost predicate Heard(frames: seq<Frame>, mac: Mac) {
    exists i | 0 <= i < |frames| :: frames[i].src == mac
  }

  lemma {:induction false} LastPortIsLocation(frames: seq<Frame>, where: Mac -> Port, mac: Mac)
    requires Located(frames, where)
    ensures LastPort(frames, mac) == if Heard(frames, mac) then Some(where(mac)) else None
  {
    if frames != [] {
      var before, last := frames[..|frames| - 1], frames[|frames| - 1];
      LastPortIsLocation(before, where, mac);
      if last.src == mac {
        assert Heard(frames, mac);
      } else if Heard(before, mac) {
        var i :| 0 <= i < |before| && before[i].src == mac;
        assert frames[i].src == mac;
      }
    }
  }

  /** The next frame of any run in which stations stay where they are: a frame for a station on
      another port reaches that port, alone if the station has been heard; what is not for a
      heard station goes to every other port and never back. */
  lemma EveryFrame(frames: seq<Frame>, f: Frame, where: Mac -> Port)
    requires Located(frames + [f], where)
    ensures var sent := Forward(TableAfter(frames), f).1;
            && (f.dst != BROADCAST && Heard(frames + [f], f.dst) ==> sent == [where(f.dst)])
            && (f.dst == BROADCAST || !Heard(frames + [f], f.dst) ==> sent == Others(f.port, NUM_PORTS))
            && (f.dst != BROADCAST && where(f.dst) != f.port ==> where(f.dst) in sent)
            && Distinct(sent)
  {
    var all := frames + [f];
    assert all[..|all| - 1] == frames;
    TableIsLastPort(all, f.dst);
    LastPortIsLocation(all, where, f.dst);
    BroadcastName(f.dst);
    assert Forward(TableAfter(frames), f).0 == TableAfter(all);
    hide Joined, LastPort, Heard, Others;
  }

  // ---------------------------------------------------------------------------------

  class Switch {
    var switchMap: Table

    constructor ()
      ensures switchMap == map[]
    {
      switchMap := map[];
    }

    /** One frame received at a port; returns the ports it is sent to. */
    method Receive(f: Frame) returns (sent: seq<Port>)
      modifies this
      ensures (switchMap, sent) == Forward(old(switchMap), f)
    {
      var source := GetString(f.src);
      switchMap := switchMap[source := f.port];
      var dest := GetString(f.dst);
      if dest == "255-255-255-255-255-255" {
        sent := Flood(f.port);
      } else if dest in switchMap {
        sent := [switchMap[dest]];
      } else {
        sent := Flood(f.port);
      }
    }

    method Flood(i: Port) returns (sent: seq<Port>)
      ensures sent == Others(i, NUM_PORTS)
    {
      sent := [];
      for j := 0 to NUM_PORTS
        invariant sent == Others(i, j)
      {
        if j != i {
          sent := sent + [j];
        }
      }
    }
  }
}
