/** What a client reads in the answer of DHCPOptionsReply, option by option, in terms of the settings. */
module DhcpAnswers {
  import opened Basics
  import opened DhcpOptions
  import opened DhcpReply

  /** s is what the server leaves of the answer a, msgSize the size it sends. */
  ghost predicate IsAnswer(s: seq<Byte>, a: Answer, agent: seq<Byte>, msgSize: nat) {
    Readable(s) && a.Valid() && |agent| < 256 && a.services != 0 && Answered(s, a, agent, msgSize)
  }

  /** Four bytes as a number, high byte first. */
  function Number(b: seq<Byte>): int
    requires |b| == 4
  {
    0x100_0000 * (b[0] as int) + 0x1_0000 * (b[1] as int) + 0x100 * (b[2] as int) + b[3]
  }

  /** The address of a setting is sent. */
  predicate IsSet(x: Setting) {
    !x.empty && x.addr != [0, 0, 0, 0]
  }

  lemma FourBytes(v: nat)
    requires v < 0x1_0000_0000
    ensures Number(BigEndian(v)) == v
  {
    var w1, w2, w3 := v / 0x100, v / 0x1_0000, v / 0x100_0000;
    assert v == 0x100 * w1 + v % 0x100;
    assert w1 == 0x100 * w2 + w1 % 0x100 by {
      assert w2 == w1 / 0x100;
    }
    assert w2 == 0x100 * w3 + w2 % 0x100 by {
      assert w3 == w2 / 0x100;
    }
  }

  /** Row j of the table writes the option with the code and the value. */
  ghost predicate Writes(j: nat, code: int, a: Answer, agent: seq<Byte>, value: seq<Byte>) {
    && j < CUSTOM_ROW && DHCP_OPTS[j].nDHCPOpt == code
    && RowItems(DHCP_OPTS[j], a, agent) == [Opt(DHCP_OPTS[j].nDHCPOpt, value)]
  }

  lemma RowIsRead(s: seq<Byte>, a: Answer, agent: seq<Byte>, msgSize: nat, j: nat, code: int, value: seq<Byte>)
    requires IsAnswer(s, a, agent, msgSize) && Writes(j, code, a, agent, value)
    ensures Value(s, code) == Some(value)
  {
    hide RowItems, Value, Answered;
    TableComesFirst(s, a, agent, msgSize, j);
  }

  lemma FixedRow(j: nat, a: Answer, agent: seq<Byte>)
    requires j < 9 && DHCP_OPTS[j].nLen != 0 && a.services != 0
    ensures Writes(j, DHCP_OPTS[j].nDHCPOpt, a, agent, FixedValue(DHCP_OPTS[j].nDHCPOpt, a))
  {
    hide FixedValue, VariableItems;
    AnyService(a.services);
  }

  lemma FixedCodes()
    ensures DHCP_OPTS[0].nDHCPOpt == 53 && DHCP_OPTS[1].nDHCPOpt == 54 && DHCP_OPTS[2].nDHCPOpt == 1
    ensures DHCP_OPTS[6].nDHCPOpt == 51 && DHCP_OPTS[7].nDHCPOpt == 58 && DHCP_OPTS[8].nDHCPOpt == 59
    ensures forall j <- [0, 1, 2, 6, 7, 8] :: DHCP_OPTS[j].nLen != 0
  {
  }

  lemma FixedValues(a: Answer)
    ensures FixedValue(53, a) == [a.nDhcpType % 256] && FixedValue(54, a) == a.nearest && FixedValue(1, a) == a.mask
    ensures FixedValue(51, a) == BigEndian(60 * a.nLease) && FixedValue(58, a) == BigEndian(60 * (a.nLease / 2))
    ensures FixedValue(59, a) == BigEndian(60 * (80 * a.nLease / 100))
  {
  }

  // ----- what every answer carries

  /** Message type, server, mask. */
  lemma Identity(s: seq<Byte>, a: Answer, agent: seq<Byte>, msgSize: nat)
    requires IsAnswer(s, a, agent, msgSize)
    ensures Value(s, 53) == Some([a.nDhcpType % 256]) && Value(s, 54) == Some(a.nearest) && Value(s, 1) == Some(a.mask)
  {
    hide Answered, Value, FixedValue, Writes, Readable;
    FixedCodes();
    FixedValues(a);
    FixedRow(0, a, agent);
    FixedRow(1, a, agent);
    FixedRow(2, a, agent);
    RowIsRead(s, a, agent, msgSize, 0, 53, [a.nDhcpType % 256]);
    RowIsRead(s, a, agent, msgSize, 1, 54, a.nearest);
    RowIsRead(s, a, agent, msgSize, 2, 1, a.mask);
  }

  /** The option is four bytes that make the number of seconds. */
  ghost predicate HasSeconds(s: seq<Byte>, code: int, n: int)
    requires Readable(s)
  {
    Value(s, code).Some? && |Value(s, code).value| == 4 && Number(Value(s, code).value) == n
  }

  lemma SecondsAre(s: seq<Byte>, a: Answer, agent: seq<Byte>, msgSize: nat, j: nat, code: int, n: int)
    requires IsAnswer(s, a, agent, msgSize)
    requires (j == 6 && code == 51 && n == 60 * a.nLease) || (j == 7 && code == 58 && n == 60 * (a.nLease / 2))
          || (j == 8 && code == 59 && n == 60 * (80 * a.nLease / 100))
    ensures HasSeconds(s, code, n)
  {
    hide Answered, Value, FixedValue, Writes, BigEndian;
    FixedCodes();
    FixedValues(a);
    FixedRow(j, a, agent);
    FourBytes(n);
    RowIsRead(s, a, agent, msgSize, j, code, BigEndian(n));
  }

  /** Lease time, renewal time and rebinding time in seconds, of nLease minutes, half of them, and four fifths of them,
      each in whole minutes. */
  lemma Times(s: seq<Byte>, a: Answer, agent: seq<Byte>, msgSize: nat)
    requires IsAnswer(s, a, agent, msgSize)
    ensures HasSeconds(s, 51, 60 * a.nLease) && HasSeconds(s, 58, 60 * (a.nLease / 2))
    ensures HasSeconds(s, 59, 60 * (80 * a.nLease / 100))
  {
    SecondsAre(s, a, agent, msgSize, 6, 51, 60 * a.nLease);
    SecondsAre(s, a, agent, msgSize, 7, 58, 60 * (a.nLease / 2));
    SecondsAre(s, a, agent, msgSize, 8, 59, 60 * (80 * a.nLease / 100));
  }

  // ----- what it carries if there is something to carry

  lemma RouterRow(a: Answer, agent: seq<Byte>)
    requires a.services != 0 && a.gateway != [255, 255, 255, 255]
    ensures Writes(3, 3, a, agent, a.gateway)
  {
    AnyService(a.services);
  }

  lemma NamesRow(a: Answer, agent: seq<Byte>)
    requires a.services != 0 && IsSet(a.dns1)
    ensures Writes(4, 6, a, agent, if IsSet(a.dns2) then a.dns1.addr + a.dns2.addr else a.dns1.addr)
  {
    assert a.dns1.addr + [] == a.dns1.addr;
    AnyService(a.services);
  }

  lemma WinsRow(a: Answer, agent: seq<Byte>)
    requires a.services != 0 && IsSet(a.wins)
    ensures Writes(5, 44, a, agent, a.wins.addr)
  {
    AnyService(a.services);
  }

  lemma LogRow(a: Answer, agent: seq<Byte>)
    requires a.services & 0x0008 != 0
    ensures Writes(9, 7, a, agent, a.nearest)
  {
    AnyService(a.services);
  }

  lemma TimeServerRow(a: Answer, agent: seq<Byte>)
    requires a.services != 0 && IsSet(a.opt42)
    ensures Writes(10, 42, a, agent, a.opt42.addr)
  {
    AnyService(a.services);
  }

  lemma SipRow(a: Answer, agent: seq<Byte>)
    requires a.services != 0 && IsSet(a.opt120)
    ensures Writes(11, 120, a, agent, [1] + a.opt120.addr)
  {
    AnyService(a.services);
  }

  lemma BootSizeRow(a: Answer, agent: seq<Byte>)
    requires a.services & 0x0001 != 0 && a.bootFile.Some?
    ensures Writes(12, 13, a, agent, BootBlocks(a.bootFile.value))
  {
    AnyService(a.services);
  }

  lemma BootServerRow(a: Answer, agent: seq<Byte>)
    requires a.services & 0x0001 != 0
    ensures Writes(13, 66, a, agent, if a.tftpLocalIP != [] then a.tftpLocalIP else a.nearestText)
  {
    AnyService(a.services);
  }

  lemma DomainRow(a: Answer, agent: seq<Byte>)
    requires a.services != 0 && a.domainName != []
    ensures Writes(14, 15, a, agent, a.domainName)
  {
    AnyService(a.services);
  }

  lemma AgentRow(a: Answer, agent: seq<Byte>)
    requires a.services != 0 && agent != []
    ensures Writes(15, 82, a, agent, agent)
  {
    AnyService(a.services);
  }

  /** The router is the gateway of the settings. */
  lemma Router(s: seq<Byte>, a: Answer, agent: seq<Byte>, msgSize: nat)
    requires IsAnswer(s, a, agent, msgSize) && a.gateway != [255, 255, 255, 255]
    ensures Value(s, 3) == Some(a.gateway)
  {
    hide Answered, Value, Writes;
    RouterRow(a, agent);
    RowIsRead(s, a, agent, msgSize, 3, 3, a.gateway);
  }

  /** The first DNS server, and the second behind it if there is one. */
  lemma NameServers(s: seq<Byte>, a: Answer, agent: seq<Byte>, msgSize: nat)
    requires IsAnswer(s, a, agent, msgSize) && IsSet(a.dns1)
    ensures Value(s, 6) == Some(if IsSet(a.dns2) then a.dns1.addr + a.dns2.addr else a.dns1.addr)
  {
    hide Answered, Value, Writes;
    NamesRow(a, agent);
    RowIsRead(s, a, agent, msgSize, 4, 6, if IsSet(a.dns2) then a.dns1.addr + a.dns2.addr else a.dns1.addr);
  }

  /** WINS, NTP and SIP servers; the SIP address stands behind a byte 1. */
  lemma OtherServers(s: seq<Byte>, a: Answer, agent: seq<Byte>, msgSize: nat)
    requires IsAnswer(s, a, agent, msgSize)
    ensures IsSet(a.wins) ==> Value(s, 44) == Some(a.wins.addr)
    ensures IsSet(a.opt42) ==> Value(s, 42) == Some(a.opt42.addr)
    ensures IsSet(a.opt120) ==> Value(s, 120) == Some([1] + a.opt120.addr)
  {
    hide Answered, Value, Writes;
    if IsSet(a.wins) {
      WinsRow(a, agent);
      RowIsRead(s, a, agent, msgSize, 5, 44, a.wins.addr);
    }
    if IsSet(a.opt42) {
      TimeServerRow(a, agent);
      RowIsRead(s, a, agent, msgSize, 10, 42, a.opt42.addr);
    }
    if IsSet(a.opt120) {
      SipRow(a, agent);
      RowIsRead(s, a, agent, msgSize, 11, 120, [1] + a.opt120.addr);
    }
  }

  /** The syslog server is this one, if it runs. */
  lemma LogServer(s: seq<Byte>, a: Answer, agent: seq<Byte>, msgSize: nat)
    requires IsAnswer(s, a, agent, msgSize) && a.services & 0x0008 != 0
    ensures Value(s, 7) == Some(a.nearest)
  {
    hide Answered, Value, Writes;
    LogRow(a, agent);
    RowIsRead(s, a, agent, msgSize, 9, 7, a.nearest);
  }

  /** If the TFTP server runs: its name, and the boot file's size in blocks of 512 bytes, in two bytes, high byte first.
      */
  lemma BootServer(s: seq<Byte>, a: Answer, agent: seq<Byte>, msgSize: nat)
    requires IsAnswer(s, a, agent, msgSize) && a.services & 0x0001 != 0
    ensures Value(s, 66) == Some(if a.tftpLocalIP != [] then a.tftpLocalIP else a.nearestText)
    ensures a.bootFile.Some? ==>
      var v := Value(s, 13);
      v.Some? && |v.value| == 2 && 256 * (v.value[0] as int) + v.value[1] == (1 + a.bootFile.value / 512) % 65536
  {
    hide Answered, Value, Writes;
    BootServerRow(a, agent);
    RowIsRead(s, a, agent, msgSize, 13, 66, if a.tftpLocalIP != [] then a.tftpLocalIP else a.nearestText);
    if a.bootFile.Some? {
      BootSizeRow(a, agent);
      RowIsRead(s, a, agent, msgSize, 12, 13, BootBlocks(a.bootFile.value));
      TwoBytes(1 + a.bootFile.value / 512);
    }
  }

  lemma TwoBytes(n: nat)
    ensures 256 * (n / 0x100 % 0x100) + n % 0x100 == n % 65536
  {
    assert n == 0x10000 * (n / 0x10000) + 0x100 * (n / 0x100 % 0x100) + n % 0x100;
  }

  /** The domain name, and the relay agent information of the request. */
  lemma NameAndAgent(s: seq<Byte>, a: Answer, agent: seq<Byte>, msgSize: nat)
    requires IsAnswer(s, a, agent, msgSize)
    ensures a.domainName != [] ==> Value(s, 15) == Some(a.domainName)
    ensures agent != [] ==> Value(s, 82) == Some(agent)
  {
    hide Answered, Value, Writes;
    if a.domainName != [] {
      DomainRow(a, agent);
      RowIsRead(s, a, agent, msgSize, 14, 15, a.domainName);
    }
    if agent != [] {
      AgentRow(a, agent);
      RowIsRead(s, a, agent, msgSize, 15, 82, agent);
    }
  }

  // ----- what it does not carry

  /** The settings give no value for the option. */
  predicate NothingFor(code: int, a: Answer, agent: seq<Byte>) {
    match code
    case 3 => a.gateway == [255, 255, 255, 255]
    case 6 => !IsSet(a.dns1)
    case 44 => !IsSet(a.wins)
    case 42 => !IsSet(a.opt42)
    case 120 => !IsSet(a.opt120)
    case 7 => a.services & 0x0008 == 0
    case 13 => a.services & 0x0001 == 0 || a.bootFile.None?
    case 66 => a.services & 0x0001 == 0
    case 15 => a.domainName == []
    case 82 => agent == []
    case 1 => false
    case 51 => false
    case 53 => false
    case 54 => false
    case 58 => false
    case 59 => false
    case _ => true
  }

  lemma RowHasNothing(k: nat, a: Answer, agent: seq<Byte>, code: int)
    requires k < CUSTOM_ROW && NothingFor(code, a, agent)
    ensures FirstValue(RowItems(DHCP_OPTS[k], a, agent), code) == None
  {
    hide FixedValue, BootBlocks;
  }

  lemma {:induction false} NotAmong(k: nat, a: Answer, agent: seq<Byte>, code: int)
    requires k <= CUSTOM_ROW && NothingFor(code, a, agent)
    ensures FirstValue(Items(k, a, agent), code) == None
  {
    hide RowItems, FirstValue, NothingFor;
    if k == 0 {
      FirstOfNone(code);
    } else {
      NotAmong(k - 1, a, agent, code);
      FirstOfConcat(Items(k - 1, a, agent), RowItems(DHCP_OPTS[k - 1], a, agent), code);
      RowHasNothing(k - 1, a, agent, code);
    }
  }

  /** An option for which the settings give nothing, and that is not among the custom ones, is not in what was sent. */
  lemma NothingElse(s: seq<Byte>, a: Answer, agent: seq<Byte>, msgSize: nat, code: int)
    requires IsAnswer(s, a, agent, msgSize) && ProperCodes(a) && code != 0 && code != 255
    requires NothingFor(code, a, agent) && forall i :: 0 <= i < |a.custom| ==> a.custom[i].nAddOption % 256 != code
    ensures Value(Copy(s, msgSize), code) == None
  {
    hide Value, Answered, Items, CustomItems, Copy, NothingFor;
    ProperAreFound(s, a, agent, msgSize);
    AllItems(a, agent);
    NotAmong(CUSTOM_ROW, a, agent, code);
    NotCustom(a.custom, code);
    FirstOfConcat(Items(CUSTOM_ROW, a, agent), CustomItems(a.custom), code);
  }

  lemma {:induction false} CustomComes(cs: seq<Custom>, k: nat)
    requires k < |cs| && cs[k].nAddOption != 0
    requires forall i :: 0 <= i < k ==> cs[i].nAddOption % 256 != cs[k].nAddOption % 256
    ensures FirstValue(CustomItems(cs[..k + 1]), cs[k].nAddOption % 256) == Some(cs[k].value)
  {
    hide CustomItems;
    NotCustom(cs[..k], cs[k].nAddOption % 256);
    CustomStep(cs, k);
    FirstOfConcat(CustomItems(cs[..k]), [Opt(cs[k].nAddOption % 256, cs[k].value)], cs[k].nAddOption % 256);
  }

  lemma CustomStep(cs: seq<Custom>, k: nat)
    requires k < |cs| && cs[k].nAddOption != 0
    ensures CustomItems(cs[..k + 1]) == CustomItems(cs[..k]) + [Opt(cs[k].nAddOption % 256, cs[k].value)]
  {
    assert cs[..k + 1][..k] == cs[..k];
  }

  /** A custom option for whose code the settings give nothing is read as it is, if it is the first with its code. */
  lemma CustomIsRead(s: seq<Byte>, a: Answer, agent: seq<Byte>, msgSize: nat, k: nat)
    requires IsAnswer(s, a, agent, msgSize) && k < |a.custom| && a.custom[k].nAddOption != 0
    requires forall i :: 0 <= i <= k ==> UsedProperly(a.custom[i])
    requires forall i :: 0 <= i < k ==> a.custom[i].nAddOption % 256 != a.custom[k].nAddOption % 256
    requires NothingFor(a.custom[k].nAddOption % 256, a, agent)
    ensures Value(s, a.custom[k].nAddOption % 256) == Some(a.custom[k].value)
  {
    hide Value, Answered, Items, CustomItems, NothingFor;
    var code := a.custom[k].nAddOption % 256;
    NotAmong(CUSTOM_ROW, a, agent, code);
    CustomComes(a.custom, k);
    FirstOfConcat(Items(CUSTOM_ROW, a, agent), CustomItems(a.custom[..k + 1]), code);
    AnswerIsRead(s, a, agent, msgSize, code, k + 1);
  }
}
