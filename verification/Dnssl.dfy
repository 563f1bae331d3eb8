/**
  The DNS search list option: how radvd writes the names, section 3.1 of RFC 1035, and how
  radvdump prints them.
 */
module Dnssl {
  import opened SafeBuffer

  const DOT: Byte := 46

  /** A string: no byte of it is zero */
  type Name = s: Bytes | 0 !in s

  function LabelLen(s: Bytes): (n: nat)
    ensures n <= |s| && DOT !in s[..n] && (n < |s| ==> s[n] == DOT)
  {
    if s == [] || s[0] == DOT then 0 else 1 + LabelLen(s[1..])
  }

  /** Every label has a length that fits a byte */
  predicate Short(s: Bytes)
    decreases |s|
  {
    s == [] || (LabelLen(s) < 256 && (LabelLen(s) + 1 >= |s| || Short(s[LabelLen(s) + 1..])))
  }

  /** A name whose labels are short: lengths and labels, and a zero */
  function Wire(s: Bytes): Bytes
    decreases |s|
  {
    if s == [] then []
    else
      var n := LabelLen(s);
      var written := [(n % 256) as Byte] + s[..n];
      if n + 1 >= |s| then written + [0] else written + Wire(s[n + 1..])
  }

  function WireAll(names: seq<Bytes>): Bytes {
    if names == [] then [] else WireAll(names[..|names| - 1]) + Wire(names[|names| - 1])
  }

  // ---------- Writing ----------

  /** What a label that is too long for its length byte leaves is too long again */
  lemma {:induction false} RestTooLong(s: Bytes, r: nat)
    requires LabelLen(s) >= 256 && r == LabelLen(s) % 256
    ensures r <= |s| && s[r..] != [] && s[r] != DOT && !Short(s[r..])
  {
    LabelLenFrom(s, r);
  }

  lemma {:induction false} LabelLenFrom(s: Bytes, r: nat)
    requires r <= LabelLen(s)
    ensures LabelLen(s[r..]) == LabelLen(s) - r
  {
    if r > 0 {
      assert s[r..] == s[1..][r - 1..];
      LabelLenFrom(s[1..], r - 1);
    } else {
      assert s[r..] == s;
    }
  }

  /** Where the writer goes on after a label */
  function After(s: Bytes): (r: nat)
    requires s != []
    ensures r <= |s|
  {
    var n := LabelLen(s) % 256;
    if n < |s| && s[n] == DOT then n + 1 else n
  }

  function LabelWire(s: Bytes): Bytes
    requires s != []
  {
    var n := LabelLen(s) % 256;
    var written := [n as Byte] + s[..n];
    if After(s) == |s| then written + [0] else written
  }

  lemma NextLabel(s: Bytes)
    requires s != []
    ensures !Short(s) ==> !Short(s[After(s)..])
    ensures Short(s) ==> Short(s[After(s)..]) && LabelWire(s) + Wire(s[After(s)..]) == Wire(s)
  {
    hide Short, Wire, LabelWire, After, LabelLen;
    if LabelLen(s) >= 256 {
      TooLong(s);
    } else if LabelLen(s) + 1 < |s| {
      MiddleLabel(s);
    } else {
      LastLabel(s);
    }
  }

  lemma TooLong(s: Bytes)
    requires LabelLen(s) >= 256
    ensures !Short(s) && !Short(s[After(s)..])
  {
    RestTooLong(s, LabelLen(s) % 256);
  }

  lemma MiddleLabel(s: Bytes)
    requires LabelLen(s) < 256 && LabelLen(s) + 1 < |s|
    ensures (Short(s) <==> Short(s[After(s)..])) && LabelWire(s) + Wire(s[After(s)..]) == Wire(s)
  {
    hide LabelLen, After, Short, Wire, LabelWire;
    AfterIs(s);
    LabelWireIs(s);
    ShortIs(s);
    WireIs(s);
  }

  lemma LastLabel(s: Bytes)
    requires s != [] && LabelLen(s) < 256 && LabelLen(s) + 1 >= |s|
    ensures Short(s) && Short(s[After(s)..]) && LabelWire(s) + Wire(s[After(s)..]) == Wire(s)
  {
    hide LabelLen, After, Short, Wire, LabelWire;
    AfterIs(s);
    LabelWireIs(s);
    ShortIs(s);
    WireIs(s);
    Ends();
    assert s[|s|..] == [];
  }

  lemma AfterIs(s: Bytes)
    requires s != [] && LabelLen(s) < 256
    ensures After(s) == if LabelLen(s) + 1 < |s| then LabelLen(s) + 1 else |s|
  {
    hide LabelLen;
    LabelEnds(s);
    assert LabelLen(s) % 256 == LabelLen(s);
  }

  lemma LabelWireIs(s: Bytes)
    requires s != [] && LabelLen(s) < 256
    ensures LabelWire(s) == [(LabelLen(s) % 256) as Byte] + s[..LabelLen(s)] + if After(s) == |s| then [0] else []
  {
    hide LabelLen, After;
    assert LabelLen(s) % 256 == LabelLen(s);
  }

  lemma LabelEnds(s: Bytes)
    ensures LabelLen(s) <= |s| && (LabelLen(s) < |s| ==> s[LabelLen(s)] == DOT)
  {
  }

  lemma ShortIs(s: Bytes)
    requires s != [] && LabelLen(s) < 256
    ensures Short(s) <==> LabelLen(s) + 1 >= |s| || Short(s[LabelLen(s) + 1..])
  {
    hide LabelLen;
  }

  lemma WireIs(s: Bytes)
    requires s != []
    ensures var n := LabelLen(s);
      Wire(s) ==
      if n + 1 >= |s| then [(n % 256) as Byte] + s[..n] + [0]
      else [(n % 256) as Byte] + s[..n] + Wire(s[n + 1..])
  {
    hide LabelLen;
  }

  lemma Assoc(a: Bytes, b: Bytes, c: Bytes)
    ensures (a + b) + c == a + (b + c)
  {
  }

  lemma LabelWritten(before: Bytes, s: Bytes)
    requires s != []
    ensures var n := LabelLen(s) % 256;
      before + LabelWire(s) ==
      if After(s) == |s| then before + [n as Byte] + s[..n] + [0] else before + [n as Byte] + s[..n]
    ensures |LabelWire(s)| >= 1 + LabelLen(s) % 256
  {
    hide LabelLen, After;
    var n := LabelLen(s) % 256;
    Assoc(before, [n as Byte], s[..n]);
    Assoc(before, [n as Byte] + s[..n], [0]);
  }

  /** One label, and the zero if it is the last */
  method SerializeLabel(sb: Buffer, name: Name, start: nat) returns (alive: bool, next: nat)
    requires sb.Valid() && start < |name|
    modifies sb, sb.data
    ensures sb.Valid() && (sb.data == old(sb.data) || fresh(sb.data))
    ensures alive ==>
      next == start + After(name[start..]) && sb.Contents() == old(sb.Contents()) + LabelWire(name[start..])
    ensures old(sb.used) + |LabelWire(name[start..])| + 8 <= MAX ==> alive
    ensures alive ==> sb.used > old(sb.used)
  {
    hide LabelWire, LabelLen;
    LabelWritten(sb.Contents(), name[start..]);
    next := start;
    var labelLen := LabelLen(name[start..]) % 256;
    ghost var s := name[start..];
    assert name[start..start + labelLen] == s[..labelLen];
    alive := sb.Resize(sb.used + 1 + labelLen + 8);
    if !alive {
      return;
    }
    alive := sb.Append([labelLen as Byte]);
    if !alive {
      return;
    }
    alive := sb.Append(name[start..start + labelLen]);
    if !alive {
      return;
    }
    next := start + labelLen;
    if next < |name| && name[next] == DOT {
      next := next + 1;
    }
    if next == |name| {
      alive := sb.Append([0]);
    }
  }

  lemma Ends()
    ensures Short([]) && Wire([]) == []
  {
  }

  lemma Parts(before: Bytes, all: Bytes, written: Bytes, now: Bytes, rest: Bytes)
    requires written + (now + rest) == before + all
    ensures (written + now) + rest == before + all && |written| + |now| <= |before| + |all|
  {
  }

  method SerializeName(sb: Buffer, name: Name) returns (alive: bool)
    requires sb.Valid()
    modifies sb, sb.data
    ensures sb.Valid() && (sb.data == old(sb.data) || fresh(sb.data))
    ensures alive ==> Short(name) && sb.Contents() == old(sb.Contents()) + Wire(name)
    ensures Short(name) && old(sb.used) + |Wire(name)| + 8 <= MAX ==> alive
  {
    hide Wire, Short, After, LabelWire, LabelLen;
    var i := 0;
    ghost var before := sb.Contents();
    Ends();
    assert name[0..] == name;
    while i < |name|
      invariant i <= |name| && sb.Valid() && (sb.data == old(sb.data) || fresh(sb.data))
      invariant Short(name) == Short(name[i..])
      invariant Short(name) ==> sb.Contents() + Wire(name[i..]) == before + Wire(name)
      decreases MAX - sb.used
    {
      ghost var s, written := name[i..], sb.Contents();
      NextLabel(s);
      if Short(name) {
        Parts(before, Wire(name), written, LabelWire(s), Wire(s[After(s)..]));
      }
      alive, i := SerializeLabel(sb, name, i);
      if !alive {
        return;
      }
      assert s[After(s)..] == name[i..];
    }
    assert name[i..] == [];
    alive := true;
  }

  lemma {:induction false} WireAllPart(names: seq<Bytes>, i: nat)
    requires i <= |names|
    ensures |WireAll(names[..i])| <= |WireAll(names)|
    ensures i < |names| ==>
      WireAll(names[..i + 1]) == WireAll(names[..i]) + Wire(names[i]) && |WireAll(names[..i + 1])| <= |WireAll(names)|
  {
    if i == |names| {
      assert names[..i] == names;
    } else if i == |names| - 1 {
      assert names[..i + 1] == names;
    } else {
      WireAllPart(names[..|names| - 1], i);
      assert names[..|names| - 1][..i] == names[..i] && names[..|names| - 1][..i + 1] == names[..i + 1];
    }
  }

  method SerializeDomainNames(sb: Buffer, names: seq<Name>) returns (alive: bool, len: nat)
    requires sb.Valid()
    modifies sb, sb.data
    ensures sb.Valid() && (sb.data == old(sb.data) || fresh(sb.data))
    ensures alive ==>
      (forall s <- names :: Short(s)) && sb.Contents() == old(sb.Contents()) + WireAll(names) && len == |WireAll(names)|
    ensures (forall s <- names :: Short(s)) && old(sb.used) + |WireAll(names)| + 8 <= MAX ==> alive
  {
    len := 0;
    ghost var before := sb.Contents();
    for i := 0 to |names|
      invariant sb.Valid() && (sb.data == old(sb.data) || fresh(sb.data))
      invariant (forall s <- names[..i] :: Short(s)) && sb.Contents() == before + WireAll(names[..i])
      invariant len == |WireAll(names[..i])|
    {
      WireAllPart(names, i);
      var used := sb.used;
      Assoc(before, WireAll(names[..i]), Wire(names[i]));
      alive := SerializeName(sb, names[i]);
      if !alive {
        return;
      }
      len := len + (sb.used - used);
    }
    assert names[..|names|] == names;
    alive := true;
  }

  // ---------- The option ----------

  const ND_OPT_DNSSL_INFORMATION: Byte := 31

  /** Type, length in units of 8 bytes, two bytes reserved and the lifetime */
  function Info(length: Byte, lifetime: Bytes): (r: Bytes)
    ensures |r| == 4 + |lifetime|
  {
    [ND_OPT_DNSSL_INFORMATION, length, 0, 0] + lifetime
  }

  function Units(bytes: nat): (n: nat)
    ensures bytes <= 8 * n < bytes + 8
  {
    (bytes + 7) / 8
  }

  function OptionWith(domains: Bytes, lifetime: Bytes): Bytes
    requires |lifetime| == 4 && 8 + |domains| <= 2040
  {
    var bytes := 8 + |domains|;
    Info(Units(bytes) as Byte, lifetime) + domains + Zeros(8 * Units(bytes) - bytes)
  }

  function DnsslOption(names: seq<Name>, lifetime: Bytes): Bytes
    requires |lifetime| == 4 && 8 + |WireAll(names)| <= 2040
  {
    OptionWith(WireAll(names), lifetime)
  }

  /** Section 5.2 of RFC 6106: type 31, the length in units of 8 bytes, two reserved bytes, the lifetime, the names,
      and zeros up to a whole number of units */
  predicate Laid(option: Bytes, domains: Bytes, lifetime: Bytes) {
    && |option| >= 8 && |option| == 8 * option[1] as nat && |option| < 16 + |domains| <= |option| + 8
    && option[0] == 31 && option[2] == 0 && option[3] == 0 && option[4..8] == lifetime
    && option[8..8 + |domains|] == domains && forall i | 8 + |domains| <= i < |option| :: option[i] == 0
  }

  lemma OptionLaid(domains: Bytes, lifetime: Bytes)
    requires |lifetime| == 4 && 8 + |domains| <= 2040
    ensures Laid(OptionWith(domains, lifetime), domains, lifetime)
  {
    hide Units;
    var bytes := 8 + |domains|;
    var option := OptionWith(domains, lifetime);
    assert Units(bytes) < 256;
    assert option[4..8] == lifetime;
    assert option[8..bytes] == domains;
  }

  /** add_ra_options_dnssl for one list: an option comes out exactly when it has at most 2040 bytes and no
      label of 256 or more.  From 2041 bytes on its length does not fit the byte it has, although 2048 are
      let pass. */
  method AddDnssl(serialized: Buffer, names: seq<Name>, lifetime: Bytes) returns (alive: bool, sb: Buffer)
    requires serialized.Valid() && |lifetime| == 4
    modifies serialized, serialized.data
    ensures serialized.Valid() && (serialized.data == old(serialized.data) || fresh(serialized.data))
    ensures alive <==> (forall s <- names :: Short(s)) && 8 + |WireAll(names)| <= 2040
    ensures fresh(sb) && sb.Valid() && fresh(sb.data) && (alive ==> sb.Contents() == DnsslOption(names, lifetime))
    ensures alive ==> Laid(sb.Contents(), WireAll(names), lifetime)
  {
    hide WireAll, Short, OptionWith, Laid;
    sb := new Buffer();
    serialized.used := 0;
    var n;
    alive, n := SerializeDomainNames(serialized, names);
    if alive {
      assert serialized.Contents() == WireAll(names);
      alive := AddOption(sb, serialized.Contents(), lifetime);
    }
    if alive {
      OptionLaid(WireAll(names), lifetime);
    }
  }

  method AddOption(sb: Buffer, domains: Bytes, lifetime: Bytes) returns (alive: bool)
    requires sb.Valid() && sb.Contents() == [] && |lifetime| == 4
    modifies sb, sb.data
    ensures sb.Valid() && (sb.data == old(sb.data) || fresh(sb.data))
    ensures alive <==> 8 + |domains| <= 2040
    ensures alive ==> sb.Contents() == OptionWith(domains, lifetime)
  {
    hide Units, Info, Zeros;
    var bytes := 8 + |domains|;
    if bytes > 256 * 8 {
      return false;
    }
    OptionSize(bytes);
    var length := (Units(bytes) % 256) as Byte;
    var padding := (length as nat * 8 - bytes) % SIZES;
    alive := Emit(sb, Info(length, lifetime), domains, padding);
  }

  method Emit(sb: Buffer, info: Bytes, domains: Bytes, padding: nat) returns (alive: bool)
    requires sb.Valid() && sb.Contents() == [] && |info| == 8 && |domains| <= 2040
    requires padding < 8 || padding == SIZES - 8 - |domains|
    modifies sb, sb.data
    ensures sb.Valid() && (sb.data == old(sb.data) || fresh(sb.data))
    ensures alive <==> padding < 8
    ensures alive ==> sb.Contents() == info + domains + Zeros(padding)
  {
    hide Zeros;
    alive := sb.Resize((sb.used + 8 + |domains| + padding) % SIZES);
    if !alive {
      return;
    }
    alive := sb.Append(info);
    if !alive {
      return;
    }
    alive := sb.Append(domains);
    if !alive {
      return;
    }
    alive := sb.Pad(padding);
  }

  lemma OptionSize(bytes: nat)
    requires 8 <= bytes <= 2048
    ensures if bytes <= 2040
            then Units(bytes) < 256 && (Units(bytes) * 8 - bytes) % SIZES == Units(bytes) * 8 - bytes < 8
            else Units(bytes) == 256 && (0 - bytes) % SIZES == SIZES - bytes
  {
  }

  // ---------- Reading ----------

  /** What strncat takes of a label: up to a zero */
  function UpToZero(s: Bytes): (r: Bytes)
    ensures 0 !in r && |r| <= |s| && (0 !in s ==> r == s)
  {
    if s == [] || s[0] == 0 then [] else [s[0]] + UpToZero(s[1..])
  }

  function Joined(suffix: Bytes, part: Bytes): Bytes {
    if suffix == [] then part else suffix + [DOT] + part
  }

  /** What is printed from an offset on: t the bytes there, room those of them that are the option's, and
      suffix the labels read since the last zero.  A label may reach over the end of the option. */
  function Printed(t: Bytes, room: int, suffix: Bytes): seq<Bytes>
    requires room <= 0 || room + 255 <= |t|
    decreases room
  {
    if room <= 0 then []
    else
      var n := t[0] as nat;
      if n == 0 then
        if suffix == [] then Printed(t[1..], room - 1, []) else [suffix] + Printed(t[1..], room - 1, [])
      else if 256 - |suffix| < n + 2 then []
      else Printed(t[1 + n..], room - 1 - n, Joined(suffix, UpToZero(t[1..1 + n])))
  }

  lemma PrintedZero(t: Bytes, room: nat, suffix: Bytes)
    requires 0 < room && room + 255 <= |t| && t[0] == 0
    ensures Printed(t, room, suffix) == if suffix == []
      then Printed(t[1..], room - 1, [])
      else [suffix] + Printed(t[1..], room - 1, [])
  {
  }

  lemma PrintedLabel(t: Bytes, room: nat, suffix: Bytes)
    requires 0 < room && room + 255 <= |t| && t[0] != 0
    ensures var n := t[0] as nat;
      Printed(t, room, suffix) ==
      if 256 - |suffix| < n + 2 then []
      else Printed(t[1 + n..], room - 1 - n, Joined(suffix, UpToZero(t[1..1 + n])))
  {
  }

  /** The same, for the byte at an offset */
  lemma PrintedAt(s: Bytes, end: nat, offset: nat, suffix: Bytes)
    requires offset < end && end + 255 <= |s|
    ensures s[offset] == 0 ==>
      Printed(s[offset..], end - offset, suffix) ==
      if suffix == [] then Printed(s[offset + 1..], end - offset - 1, [])
      else [suffix] + Printed(s[offset + 1..], end - offset - 1, [])
    ensures var n := s[offset] as nat;
      n > 0 ==>
        Printed(s[offset..], end - offset, suffix) ==
        if 256 - |suffix| < n + 2 then []
        else Printed(s[offset + 1 + n..], end - offset - 1 - n,
                     Joined(suffix, UpToZero(s[offset + 1..offset + 1 + n])))
  {
    hide Printed, UpToZero;
    var t, n := s[offset..], s[offset] as nat;
    if n == 0 {
      PrintedZero(t, end - offset, suffix);
      assert t[1..] == s[offset + 1..];
    } else {
      PrintedLabel(t, end - offset, suffix);
      assert t[1 + n..] == s[offset + 1 + n..] && t[1..1 + n] == s[offset + 1..offset + 1 + n];
    }
  }

  lemma AddPrinted(a: seq<Bytes>, b: Bytes, c: seq<Bytes>)
    ensures a + ([b] + c) == (a + [b]) + c
  {
  }

  /** The loop of print_ff: what it prints, and its string of 256 bytes never runs over */
  method PrintDnssl(s: Bytes, length: Byte) returns (printed: seq<Bytes>)
    requires length > 0 && (length as nat - 1) * 8 + 255 <= |s|
    ensures printed == Printed(s, (length as nat - 1) * 8, [])
  {
    hide Printed, UpToZero;
    var end := (length as nat - 1) * 8;
    var suffix: Bytes, offset := [], 0;
    printed := [];
    assert s[0..] == s;
    while offset < end
      invariant 0 !in suffix && |suffix| + 1 <= 256 && offset <= end + 255
      invariant printed + Printed(s[offset..], end - offset, suffix) == Printed(s, end, [])
      decreases end - offset
    {
      PrintedAt(s, end, offset, suffix);
      ghost var before, part := suffix, UpToZero(s[offset + 1..offset + 1 + s[offset] as nat]);
      var labelLen := s[offset] as nat;
      offset := offset + 1;
      if labelLen == 0 {
        if suffix == [] {
          continue;
        }
        AddPrinted(printed, suffix, Printed(s[offset..], end - offset, []));
        printed := printed + [suffix];
        suffix := [];
        continue;
      }
      if 256 - |suffix| < labelLen + 2 {
        return;
      }
      if suffix != [] {
        suffix := suffix + [DOT];
      }
      suffix := suffix + UpToZero(s[offset..offset + labelLen]);
      offset := offset + labelLen;
      assert suffix == Joined(before, part);
    }
    PrintedEnd(s[offset..], end - offset, suffix);
  }

  lemma PrintedEnd(t: Bytes, room: int, suffix: Bytes)
    requires room <= 0
    ensures Printed(t, room, suffix) == []
  {
  }

  // ---------- The round trip ----------

  /** A list of labels, none of them empty */
  predicate Labels(s: Bytes)
    decreases |s|
  {
    LabelLen(s) > 0 && (LabelLen(s) == |s| || (LabelLen(s) + 1 < |s| && Labels(s[LabelLen(s) + 1..])))
  }

  /** What the reader's string has room for */
  predicate Printable(s: Bytes) {
    Labels(s) && (|s| <= 254 || (|s| == 255 && LabelLen(s) < |s|))
  }

  lemma {:induction false} PrintableShort(s: Bytes)
    requires Labels(s) && |s| <= 255
    ensures Short(s)
  {
    if LabelLen(s) + 1 < |s| {
      PrintableShort(s[LabelLen(s) + 1..]);
    }
  }

  /** One label and what comes behind it */
  lemma LabelRead(part: Bytes, t: Bytes, room: nat, suffix: Bytes)
    requires 0 < |part| < 256 && 0 !in part && room + 255 <= |t|
    ensures var w := [|part| as Byte] + part;
      Printed(w + t, |w| + room, suffix) ==
      if 256 - |suffix| < |part| + 2 then [] else Printed(t, room, Joined(suffix, part))
  {
    var w := [|part| as Byte] + part;
    PrintedLabel(w + t, |w| + room, suffix);
    assert (w + t)[1..1 + |part|] == part && (w + t)[1 + |part|..] == t;
  }

  lemma ZeroRead(t: Bytes, room: nat, suffix: Bytes)
    requires room + 255 <= |t|
    ensures Printed([0] + t, 1 + room, suffix) == if suffix == []
      then Printed(t, room, [])
      else [suffix] + Printed(t, room, [])
  {
    PrintedZero([0] + t, 1 + room, suffix);
    assert ([0] + t)[1..] == t;
  }

  /** A name is read back, behind the labels read before */
  lemma {:induction false} NameRead(s: Bytes, t: Bytes, room: nat, suffix: Bytes)
    requires Labels(s) && 0 !in s && room + 255 <= |t|
    requires |Joined(suffix, s)| <= 255 && (suffix == [] ==> LabelLen(s) <= 254)
    ensures Printed(Wire(s) + t, |Wire(s)| + room, suffix) == [Joined(suffix, s)] + Printed(t, room, [])
    decreases |s|
  {
    hide Printed, Wire, LabelLen, UpToZero, Joined, Labels;
    LabelsFrom(s);
    WireIs(s);
    JoinedLen(suffix, s);
    var n := LabelLen(s);
    var lab := s[..n];
    if n + 1 >= |s| {
      assert lab == s;
      LabelRead(lab, [0] + t, 1 + room, suffix);
      ZeroRead(t, room, Joined(suffix, lab));
      Assoc([n as Byte] + lab, [0], t);
    } else {
      var rest := s[n + 1..];
      LabelRead(lab, Wire(rest) + t, |Wire(rest)| + room, suffix);
      Assoc([n as Byte] + lab, Wire(rest), t);
      JoinedRest(suffix, s);
      NameRead(rest, t, room, Joined(suffix, lab));
    }
  }

  lemma LabelsFrom(s: Bytes)
    requires Labels(s)
    ensures 0 < LabelLen(s) <= |s| && (LabelLen(s) == |s| || (LabelLen(s) + 1 < |s| && Labels(s[LabelLen(s) + 1..])))
  {
  }

  lemma JoinedLen(suffix: Bytes, s: Bytes)
    ensures |Joined(suffix, s)| == if suffix == [] then |s| else |suffix| + 1 + |s|
    ensures s != [] ==> Joined(suffix, s) != []
  {
  }

  lemma JoinedRest(suffix: Bytes, s: Bytes)
    requires 0 < LabelLen(s) && LabelLen(s) + 1 < |s|
    ensures Joined(Joined(suffix, s[..LabelLen(s)]), s[LabelLen(s) + 1..]) == Joined(suffix, s)
    ensures |Joined(suffix, s[..LabelLen(s)])| + 2 + |s[LabelLen(s) + 1..]| <= |Joined(suffix, s)| + 1
  {
    var n := LabelLen(s);
    assert s == s[..n] + [DOT] + s[n + 1..];
    assert Joined(suffix, s) == Joined(suffix, s[..n]) + [DOT] + s[n + 1..];
  }

  lemma {:induction false} NamesRead(names: seq<Bytes>, t: Bytes, room: nat)
    requires (forall s <- names :: Printable(s) && 0 !in s) && room + 255 <= |t|
    ensures Printed(WireAll(names) + t, |WireAll(names)| + room, []) == names + Printed(t, room, [])
  {
    hide Printed, Wire, Labels, LabelLen;
    if names == [] {
      assert WireAll(names) + t == t;
    } else {
      var front, last := names[..|names| - 1], names[|names| - 1];
      PrintableLabel(last);
      NamesRead(front, Wire(last) + t, |Wire(last)| + room);
      Assoc(WireAll(front), Wire(last), t);
      NameRead(last, t, room, []);
      assert names == front + [last];
    }
  }

  lemma PrintableLabel(s: Bytes)
    requires Printable(s)
    ensures Labels(s) && LabelLen(s) <= 254 && |s| <= 255
  {
  }

  lemma {:induction false} ZerosRead(n: nat, t: Bytes)
    requires 255 <= |t|
    ensures Printed(Zeros(n) + t, n, []) == []
  {
    if n > 0 {
      assert Zeros(n) + t == [0] + (Zeros(n - 1) + t);
      ZeroRead(Zeros(n - 1) + t, n - 1, []);
      ZerosRead(n - 1, t);
    }
  }

  // ---------- Nothing else can be read back ----------

  /** What the reader has of a name it may still print: labels that its string had room for */
  predicate Held(suffix: Bytes) { suffix == [] || Printable(suffix) }

  lemma {:induction false} LabelsJoined(suffix: Bytes, lab: Bytes)
    requires Labels(suffix) && lab != [] && DOT !in lab
    ensures Labels(suffix + [DOT] + lab) && LabelLen(suffix + [DOT] + lab) < |suffix + [DOT] + lab|
    decreases |suffix|
  {
    var n, s := LabelLen(suffix), suffix + [DOT] + lab;
    LabelLenOf(s, n);
    if n == |suffix| {
      assert s[n + 1..] == lab;
      LabelLenOf(lab, |lab|);
    } else {
      LabelsJoined(suffix[n + 1..], lab);
      assert s[n + 1..] == suffix[n + 1..] + [DOT] + lab;
    }
  }

  lemma {:induction false} LabelLenOf(s: Bytes, n: nat)
    requires n <= |s| && DOT !in s[..n] && (n < |s| ==> s[n] == DOT)
    ensures LabelLen(s) == n
  {
    if n > 0 {
      assert s[0] == s[..n][0] && s[1..][..n - 1] == s[..n][1..];
      LabelLenOf(s[1..], n - 1);
    }
  }

  lemma HeldJoined(suffix: Bytes, lab: Bytes)
    requires Held(suffix) && lab != [] && DOT !in lab && 256 - |suffix| >= |lab| + 2
    ensures Printable(Joined(suffix, lab))
  {
    if suffix == [] {
      LabelLenOf(lab, |lab|);
    } else {
      LabelsJoined(suffix, lab);
    }
  }

  ghost predicate AllPrintable(names: seq<Bytes>) { forall s <- names :: Printable(s) }

  /** Whatever the names, what is printed of them could be read back */
  lemma {:induction false} NamePrintable(s: Bytes, t: Bytes, room: nat, suffix: Bytes)
    requires Short(s) && 0 !in s && Held(suffix) && room + 255 <= |t| && AllPrintable(Printed(t, room, []))
    requires s != []
    ensures AllPrintable(Printed(Wire(s) + t, |Wire(s)| + room, suffix))
    decreases |s|
  {
    hide Printed, Wire, LabelLen, UpToZero, Printable;
    WireIs(s);
    var n := LabelLen(s);
    var lab := s[..n];
    var more := if n + 1 >= |s| then [0] else Wire(s[n + 1..]);
    Assoc([n as Byte] + lab, more, t);
    if n == 0 {
      EmptyRead(more + t, |more| + room, suffix);
      if n + 1 >= |s| {
        ZeroRead(t, room, []);
      } else {
        NamePrintable(s[n + 1..], t, room, []);
      }
    } else {
      LabelRead(lab, more + t, |more| + room, suffix);
      if 256 - |suffix| >= n + 2 {
        HeldJoined(suffix, lab);
        if n + 1 >= |s| {
          ZeroRead(t, room, Joined(suffix, lab));
        } else {
          NamePrintable(s[n + 1..], t, room, Joined(suffix, lab));
        }
      }
    }
  }

  lemma EmptyRead(t: Bytes, room: nat, suffix: Bytes)
    requires room + 255 <= |t|
    ensures Printed([0] + [] + t, 1 + room, suffix) == if suffix == []
      then Printed(t, room, [])
      else [suffix] + Printed(t, room, [])
  {
    assert [0] + [] + t == [0] + t;
    ZeroRead(t, room, suffix);
  }

  lemma {:induction false} NamesPrintable(names: seq<Bytes>, t: Bytes, room: nat)
    requires (forall s <- names :: Short(s) && 0 !in s) && room + 255 <= |t| && AllPrintable(Printed(t, room, []))
    ensures AllPrintable(Printed(WireAll(names) + t, |WireAll(names)| + room, []))
  {
    hide Printed, Wire, LabelLen, Printable, Short;
    if names == [] {
      assert WireAll(names) + t == t;
    } else {
      var front, last := names[..|names| - 1], names[|names| - 1];
      Ends();
      if last != [] {
        NamePrintable(last, t, room, []);
      } else {
        assert Wire(last) + t == t;
      }
      NamesPrintable(front, Wire(last) + t, |Wire(last)| + room);
      Assoc(WireAll(front), Wire(last), t);
    }
  }

  /** radvdump prints back the list that radvd was given exactly when every name is a list of nonempty labels
      that a string of 256 bytes has room for: 254 bytes, or 255 if there is more than one label */
  lemma RoundTrip(names: seq<Name>, lifetime: Bytes, beyond: Bytes)
    requires |lifetime| == 4 && (forall s <- names :: Short(s)) && 8 + |WireAll(names)| <= 2040 && |beyond| >= 255
    ensures var option := DnsslOption(names, lifetime);
      && |option| == option[1] as nat * 8 && option[1] > 0
      && (Printed(option[8..] + beyond, (option[1] as nat - 1) * 8, []) == names <==> AllPrintable(names))
  {
    hide Printed, Wire, Labels, LabelLen, Short;
    var option, w := DnsslOption(names, lifetime), WireAll(names);
    var pad := 8 * Units(8 + |w|) - 8 - |w|;
    ZerosRead(pad, beyond);
    assert option[8..] + beyond == w + (Zeros(pad) + beyond);
    NamesPrintable(names, Zeros(pad) + beyond, pad);
    if AllPrintable(names) {
      NamesRead(names, Zeros(pad) + beyond, pad);
    }
  }
}
