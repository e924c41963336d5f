/** The options that DHCPOptionsReply (bootpd.c) writes into an answer, and what the search finds in them. */
module DhcpReply {
  import opened Basics
  import opened DhcpOptions

  type DWord = b: seq<Byte> | |b| == 4 witness [0, 0, 0, 0]

  const INADDR_NONE: DWord := [255, 255, 255, 255]
  const INADDR_ANY: DWord := [0, 0, 0, 0]

  const DHO_SUBNET_MASK: Byte := 1
  const DHO_ROUTERS: Byte := 3
  const DHO_DOMAIN_NAME_SERVERS: Byte := 6
  const DHO_LOG_SERVERS: Byte := 7
  const DHO_BOOT_SIZE: Byte := 13
  const DHO_DOMAIN_NAME: Byte := 15
  const DHO_NTP_SERVERS: Byte := 42
  const DHO_NETBIOS_NAME_SERVERS: Byte := 44
  const DHO_DHCP_LEASE_TIME: Byte := 51
  const DHO_DHCP_MESSAGE_TYPE: Byte := 53
  const DHO_DHCP_SERVER_IDENTIFIER: Byte := 54
  const DHO_DHCP_RENEWAL_TIME: Byte := 58
  const DHO_DHCP_REBINDING_TIME: Byte := 59
  const DHO_TFTP_SERVER: Byte := 66
  const DHO_DHCP_AGENT_OPTIONS: Byte := 82
  const DHO_SIP_SERVERS: Byte := 120
  const DHO_CUSTOM: Byte := 254

  const TFTPD32_TFTP_SERVER: bv16 := 0x0001
  const TFTPD32_SYSLOG_SERVER: bv16 := 0x0008
  const ANY_SERVICE: bv16 := 0xFFFF

  datatype Row = Row(nDHCPOpt: Byte, nLen: Byte, nServices: bv16)

  /** In order of appearance in the answer; a length of zero stands for a variable one. */
  const DHCP_OPTS: seq<Row> := [
    Row(DHO_DHCP_MESSAGE_TYPE, 1, ANY_SERVICE),
    Row(DHO_DHCP_SERVER_IDENTIFIER, 4, ANY_SERVICE),
    Row(DHO_SUBNET_MASK, 4, ANY_SERVICE),
    Row(DHO_ROUTERS, 0, ANY_SERVICE),
    Row(DHO_DOMAIN_NAME_SERVERS, 0, ANY_SERVICE),
    Row(DHO_NETBIOS_NAME_SERVERS, 0, ANY_SERVICE),
    Row(DHO_DHCP_LEASE_TIME, 4, ANY_SERVICE),
    Row(DHO_DHCP_RENEWAL_TIME, 4, ANY_SERVICE),
    Row(DHO_DHCP_REBINDING_TIME, 4, ANY_SERVICE),
    Row(DHO_LOG_SERVERS, 4, TFTPD32_SYSLOG_SERVER),
    Row(DHO_NTP_SERVERS, 0, ANY_SERVICE),
    Row(DHO_SIP_SERVERS, 0, ANY_SERVICE),
    Row(DHO_BOOT_SIZE, 0, TFTPD32_TFTP_SERVER),
    Row(DHO_TFTP_SERVER, 0, TFTPD32_TFTP_SERVER),
    Row(DHO_DOMAIN_NAME, 0, ANY_SERVICE),
    Row(DHO_DHCP_AGENT_OPTIONS, 0, ANY_SERVICE),
    Row(DHO_CUSTOM, 0, ANY_SERVICE),
    Row(DHO_END, 0, ANY_SERVICE)
  ]
  const END_ROW := 17
  const CUSTOM_ROW := 16

  /** A text setting, with the address that inet_addr reads from it. */
  datatype Setting = Setting(empty: bool, addr: DWord) {
    predicate Usable() {
      !empty && addr != INADDR_ANY
    }
  }

  /** A custom option; value is what TranslateParam2Value makes of its text for this client. */
  datatype Custom = Custom(nAddOption: int, value: seq<Byte>)

  /** The settings, the message type, the server's own address, and the size of the client's boot file if it exists. */
  datatype Answer = Answer(
    nDhcpType: int,
    services: bv16,
    nearest: DWord,
    nearestText: seq<Byte>,
    tftpLocalIP: seq<Byte>,
    mask: DWord,
    gateway: DWord,
    dns1: Setting,
    dns2: Setting,
    wins: Setting,
    opt42: Setting,
    opt120: Setting,
    nLease: nat,
    bootFile: Option<nat>,
    domainName: seq<Byte>,
    custom: seq<Custom>)
  {
    /** The sizes of the settings' buffers, and lease times whose seconds fit an int. */
    predicate Valid() {
      && |nearestText| < 16 && |tftpLocalIP| < 256 && |domainName| < 128
      && nLease * 80 < 0x8000_0000
      && |custom| == 10 && forall i :: 0 <= i < |custom| ==> |custom[i].value| < 64
    }
  }

  function BigEndian(v: nat): DWord {
    [v / 0x1000000 % 0x100, v / 0x10000 % 0x100, v / 0x100 % 0x100, v % 0x100]
  }

  function BootBlocks(size: nat): seq<Byte> {
    var n := 1 + size / 512;
    [n / 0x100 % 0x100, n % 0x100]
  }

  // ----- the answer as a list of options

  ghost function Given(c: bool, code: Byte, value: seq<Byte>): seq<Item> {
    if c then [Opt(code, value)] else []
  }

  ghost function FixedValue(code: Byte, a: Answer): seq<Byte> {
    if code == DHO_DHCP_MESSAGE_TYPE then [a.nDhcpType % 0x100]
    else if code == DHO_SUBNET_MASK then a.mask
    else if code == DHO_DHCP_LEASE_TIME then BigEndian(a.nLease * 60)
    else if code == DHO_DHCP_RENEWAL_TIME then BigEndian(a.nLease / 2 * 60)
    else if code == DHO_DHCP_REBINDING_TIME then BigEndian(a.nLease * 80 / 100 * 60)
    else a.nearest
  }

  ghost function VariableItems(code: Byte, a: Answer, agent: seq<Byte>): seq<Item> {
    if code == DHO_ROUTERS then Given(a.gateway != INADDR_NONE, code, a.gateway)
    else if code == DHO_DOMAIN_NAME_SERVERS then
      Given(a.dns1.Usable(), code, a.dns1.addr + if a.dns2.Usable() then a.dns2.addr else [])
    else if code == DHO_NETBIOS_NAME_SERVERS then Given(a.wins.Usable(), code, a.wins.addr)
    else if code == DHO_NTP_SERVERS then Given(a.opt42.Usable(), code, a.opt42.addr)
    else if code == DHO_SIP_SERVERS then Given(a.opt120.Usable(), code, [1] + a.opt120.addr)
    else if code == DHO_BOOT_SIZE then
      (match a.bootFile case None => [] case Some(size) => [Opt(code, BootBlocks(size))])
    else if code == DHO_TFTP_SERVER then [Opt(code, if a.tftpLocalIP != [] then a.tftpLocalIP else a.nearestText)]
    else if code == DHO_DOMAIN_NAME then Given(a.domainName != [], code, a.domainName)
    else if code == DHO_DHCP_AGENT_OPTIONS then Given(agent != [], code, agent)
    else if code == DHO_CUSTOM then CustomItems(a.custom)
    else []
  }

  ghost function CustomItems(cs: seq<Custom>): seq<Item> {
    if cs == [] then []
    else
      var c := cs[|cs| - 1];
      CustomItems(cs[..|cs| - 1]) + Given(c.nAddOption != 0, c.nAddOption % 0x100, c.value)
  }

  ghost function RowItems(r: Row, a: Answer, agent: seq<Byte>): seq<Item> {
    if a.services & r.nServices == 0 then []
    else if r.nLen != 0 then [Opt(r.nDHCPOpt, FixedValue(r.nDHCPOpt, a))]
    else VariableItems(r.nDHCPOpt, a, agent)
  }

  ghost function Items(k: nat, a: Answer, agent: seq<Byte>): seq<Item>
    requires k <= |DHCP_OPTS|
  {
    if k == 0 then [] else Items(k - 1, a, agent) + RowItems(DHCP_OPTS[k - 1], a, agent)
  }

  /** The options of the answer; agent is the relay agent information of the request, empty if it had none. */
  ghost function ReplyItems(a: Answer, agent: seq<Byte>): seq<Item> {
    Items(END_ROW, a, agent)
  }

  lemma {:induction false} CustomShort(cs: seq<Custom>)
    requires forall i :: 0 <= i < |cs| ==> |cs[i].value| < 64
    ensures ShortItems(CustomItems(cs))
  {
    if cs == [] {
    } else {
      CustomShort(cs[..|cs| - 1]);
    }
  }

  lemma RowShort(r: Row, a: Answer, agent: seq<Byte>)
    requires a.Valid() && |agent| < 256
    ensures ShortItems(RowItems(r, a, agent))
  {
    CustomShort(a.custom);
  }

  lemma {:induction false} ItemsShort(k: nat, a: Answer, agent: seq<Byte>)
    requires a.Valid() && |agent| < 256 && k <= |DHCP_OPTS|
    ensures ShortItems(Items(k, a, agent))
  {
    hide RowItems;
    if k == 0 {
    } else {
      ItemsShort(k - 1, a, agent);
      RowShort(DHCP_OPTS[k - 1], a, agent);
    }
  }

  // ----- the writer

  /** Bytes stored at p and after it; what stands before stays. */
  method Store(opt: array<Byte>, p: nat, b: seq<Byte>)
    requires p + |b| <= opt.Length
    modifies opt
    ensures opt[..p + |b|] == old(opt[..p]) + b
  {
    forall i | 0 <= i < |b| {
      opt[p + i] := b[i];
    }
    assert opt[..p] == old(opt[..p]);
    assert opt[p..p + |b|] == b;
    assert opt[..p + |b|] == opt[..p] + opt[p..p + |b|];
  }

  method StoreItem(opt: array<Byte>, p: nat, code: Byte, value: seq<Byte>) returns (pOpt: nat)
    requires |value| < 256 && p + 2 + |value| <= opt.Length
    modifies opt
    ensures pOpt == p + 2 + |value| && opt[..pOpt] == old(opt[..p]) + EncodeItem(Opt(code, value))
  {
    Store(opt, p, [code, |value|]);
    Store(opt, p + 2, value);
    pOpt := p + 2 + |value|;
    assert opt[..pOpt] == old(opt[..p]) + ([code, |value|] + value);
  }

  method StoreCustom(opt: array<Byte>, p: nat, a: Answer) returns (pOpt: nat)
    requires a.Valid() && ShortItems(CustomItems(a.custom))
    requires p + |Encode(CustomItems(a.custom))| <= opt.Length
    modifies opt
    ensures pOpt == p + |Encode(CustomItems(a.custom))|
    ensures opt[..pOpt] == old(opt[..p]) + Encode(CustomItems(a.custom))
  {
    hide EncodeItem;
    pOpt := p;
    assert a.custom[..10] == a.custom;
    for evan := 0 to 10
      invariant ShortItems(CustomItems(a.custom[..evan])) && pOpt == p + |Encode(CustomItems(a.custom[..evan]))|
      invariant pOpt <= opt.Length && opt[..pOpt] == old(opt[..p]) + Encode(CustomItems(a.custom[..evan]))
    {
      ghost var done := CustomItems(a.custom[..evan]);
      var c := a.custom[evan];
      CustomNext(a, evan);
      if c.nAddOption != 0 {
        pOpt := StoreItem(opt, pOpt, c.nAddOption % 0x100, c.value);
        Associative(old(opt[..p]), Encode(done), EncodeItem(Opt(c.nAddOption % 0x100, c.value)));
      }
    }
  }

  lemma EncodeNone()
    ensures Encode([]) == []
  {
  }

  lemma EncodeOne(i: Item)
    requires i.Opt? ==> |i.value| < 256
    ensures Encode([i]) == EncodeItem(i)
  {
    assert [i][1..] == [];
  }

  /** One more custom option, and room for it. */
  lemma CustomNext(a: Answer, k: nat)
    requires a.Valid() && k < |a.custom|
    ensures var c, done := a.custom[k], CustomItems(a.custom[..k]);
            var i := Opt(c.nAddOption % 0x100, c.value);
            && ShortItems(done) && ShortItems(CustomItems(a.custom[..k + 1])) && ShortItems(CustomItems(a.custom))
            && Encode(CustomItems(a.custom[..k + 1]))
                 == Encode(done) + (if c.nAddOption == 0 then [] else EncodeItem(i))
            && |Encode(CustomItems(a.custom[..k + 1]))| <= |Encode(CustomItems(a.custom))|
  {
    hide EncodeItem, Encode;
    CustomShort(a.custom[..k]);
    CustomShort(a.custom[..k + 1]);
    CustomShort(a.custom);
    var c := a.custom[k];
    var i := Opt(c.nAddOption % 0x100, c.value);
    assert a.custom[..k + 1][..k] == a.custom[..k];
    EncodeOne(i);
    EncodeNone();
    EncodeConcat(CustomItems(a.custom[..k]), Given(c.nAddOption != 0, i.code, i.value));
    CustomGrows(a, k + 1);
  }

  lemma {:induction false} CustomGrows(a: Answer, k: nat)
    requires a.Valid() && k <= |a.custom|
    ensures ShortItems(CustomItems(a.custom[..k])) && ShortItems(CustomItems(a.custom))
    ensures |Encode(CustomItems(a.custom[..k]))| <= |Encode(CustomItems(a.custom))|
    decreases |a.custom| - k
  {
    hide EncodeItem, Encode;
    CustomShort(a.custom[..k]);
    CustomShort(a.custom);
    if k == |a.custom| {
      assert a.custom[..k] == a.custom;
    } else {
      CustomGrows(a, k + 1);
      var c := a.custom[k];
      assert a.custom[..k + 1][..k] == a.custom[..k];
      EncodeConcat(CustomItems(a.custom[..k]), Given(c.nAddOption != 0, c.nAddOption % 0x100, c.value));
    }
  }

  /** The switch for the options of fixed length: stores the value and leaves the pointer. */
  method StoreFixed(opt: array<Byte>, pOpt: nat, code: Byte, a: Answer)
    requires a.Valid() && pOpt + |FixedValue(code, a)| <= opt.Length
    modifies opt
    ensures opt[..pOpt + |FixedValue(code, a)|] == old(opt[..pOpt]) + FixedValue(code, a)
  {
    if code == DHO_DHCP_MESSAGE_TYPE {
      Store(opt, pOpt, [a.nDhcpType % 0x100]);
    } else if code == DHO_SUBNET_MASK {
      Store(opt, pOpt, a.mask);
    } else if code == DHO_DHCP_LEASE_TIME {
      Store(opt, pOpt, BigEndian(a.nLease * 60));
    } else if code == DHO_DHCP_RENEWAL_TIME {
      Store(opt, pOpt, BigEndian(a.nLease / 2 * 60));
    } else if code == DHO_DHCP_REBINDING_TIME {
      Store(opt, pOpt, BigEndian(a.nLease * 80 / 100 * 60));
    } else {
      Store(opt, pOpt, a.nearest);
    }
  }

  /** The cases of the switch that write at most one option of variable length. */
  method StoreSingle(opt: array<Byte>, p: nat, code: Byte, a: Answer, agent: seq<Byte>) returns (pOpt: nat)
    requires a.Valid() && |agent| < 256 && code != DHO_CUSTOM
    requires ShortItems(VariableItems(code, a, agent)) && p + |Encode(VariableItems(code, a, agent))| <= opt.Length
    modifies opt
    ensures pOpt == p + |Encode(VariableItems(code, a, agent))|
    ensures opt[..pOpt] == old(opt[..p]) + Encode(VariableItems(code, a, agent))
  {
    hide EncodeItem;
    pOpt := p;
    if VariableItems(code, a, agent) != [] {
      EncodeOne(VariableItems(code, a, agent)[0]);
    }
    if code == DHO_ROUTERS {
      if a.gateway != INADDR_NONE {
        pOpt := StoreItem(opt, pOpt, code, a.gateway);
      }
    } else if code == DHO_DOMAIN_NAME_SERVERS {
      if a.dns1.Usable() {
        pOpt := StoreItem(opt, pOpt, code, a.dns1.addr + if a.dns2.Usable() then a.dns2.addr else []);
      }
    } else if code == DHO_NETBIOS_NAME_SERVERS {
      if a.wins.Usable() {
        pOpt := StoreItem(opt, pOpt, code, a.wins.addr);
      }
    } else if code == DHO_NTP_SERVERS {
      if a.opt42.Usable() {
        pOpt := StoreItem(opt, pOpt, code, a.opt42.addr);
      }
    } else if code == DHO_SIP_SERVERS {
      if a.opt120.Usable() {
        pOpt := StoreItem(opt, pOpt, code, [1] + a.opt120.addr);
      }
    } else if code == DHO_BOOT_SIZE {
      if a.bootFile.Some? {
        pOpt := StoreItem(opt, pOpt, code, BootBlocks(a.bootFile.value));
      }
    } else if code == DHO_TFTP_SERVER {
      pOpt := StoreItem(opt, pOpt, code, if a.tftpLocalIP != [] then a.tftpLocalIP else a.nearestText);
    } else if code == DHO_DOMAIN_NAME {
      if a.domainName != [] {
        pOpt := StoreItem(opt, pOpt, code, a.domainName);
      }
    } else if code == DHO_DHCP_AGENT_OPTIONS {
      if agent != [] {
        pOpt := StoreItem(opt, pOpt, code, agent);
      }
    }
  }

  /** One round of the loop over the table, for an option of a service that is on. */
  method StoreRow(opt: array<Byte>, p: nat, r: Row, a: Answer, agent: seq<Byte>) returns (pOpt: nat)
    requires a.Valid() && |agent| < 256 && a.services & r.nServices != 0
    requires r.nLen != 0 ==> |FixedValue(r.nDHCPOpt, a)| == r.nLen
    requires ShortItems(RowItems(r, a, agent)) && p + |Encode(RowItems(r, a, agent))| <= opt.Length
    modifies opt
    ensures pOpt == p + |Encode(RowItems(r, a, agent))|
    ensures opt[..pOpt] == old(opt[..p]) + Encode(RowItems(r, a, agent))
  {
    hide CustomItems, FixedValue, Encode;
    pOpt := p;
    if r.nLen != 0 {
      EncodeOne(Opt(r.nDHCPOpt, FixedValue(r.nDHCPOpt, a)));
      Store(opt, pOpt, [r.nDHCPOpt, r.nLen]);
      pOpt := pOpt + 2;
      StoreFixed(opt, pOpt, r.nDHCPOpt, a);
      Associative(old(opt[..p]), [r.nDHCPOpt, r.nLen], FixedValue(r.nDHCPOpt, a));
    } else if r.nDHCPOpt == DHO_CUSTOM {
      pOpt := StoreCustom(opt, pOpt, a);
    } else {
      pOpt := StoreSingle(opt, pOpt, r.nDHCPOpt, a, agent);
    }
    pOpt := pOpt + (r.nLen as int);
  }

  lemma FixedLength(k: nat, a: Answer)
    requires k < |DHCP_OPTS|
    ensures DHCP_OPTS[k].nLen != 0 ==> |FixedValue(DHCP_OPTS[k].nDHCPOpt, a)| == DHCP_OPTS[k].nLen
  {
  }

  /** The relay agent information that the request in s carries, empty if there is none. */
  ghost function Agent(s: seq<Byte>): (b: seq<Byte>)
    requires Readable(s)
    ensures |b| < 256
  {
    match Value(s, DHO_DHCP_AGENT_OPTIONS)
    case None => []
    case Some(v) => v
  }

  /** The answer leaves room for the cookie before its options and the end option behind them. */
  ghost predicate Fits(a: Answer, agent: seq<Byte>) {
    ShortItems(ReplyItems(a, agent)) && 5 + |Encode(ReplyItems(a, agent))| <= DHCP_OPTION_LEN
  }

  lemma RowFits(k: nat, a: Answer, agent: seq<Byte>)
    requires a.Valid() && |agent| < 256 && k < END_ROW && Fits(a, agent)
    ensures ShortItems(Items(k, a, agent)) && ShortItems(RowItems(DHCP_OPTS[k], a, agent))
    ensures ShortItems(Items(k + 1, a, agent))
    ensures Encode(Items(k + 1, a, agent)) == Encode(Items(k, a, agent)) + Encode(RowItems(DHCP_OPTS[k], a, agent))
    ensures 5 + |Encode(Items(k + 1, a, agent))| <= DHCP_OPTION_LEN
    decreases END_ROW - k
  {
    hide Encode, RowItems;
    ItemsShort(k, a, agent);
    ItemsShort(k + 1, a, agent);
    RowShort(DHCP_OPTS[k], a, agent);
    EncodeConcat(Items(k, a, agent), RowItems(DHCP_OPTS[k], a, agent));
    if k + 1 < END_ROW {
      RowFits(k + 1, a, agent);
    }
  }

  /** The first p bytes are the cookie and the options of the first k rows. */
  ghost predicate Written(s: seq<Byte>, p: nat, k: nat, a: Answer, agent: seq<Byte>) {
    && k <= END_ROW && ShortItems(Items(k, a, agent))
    && p == 4 + |Encode(Items(k, a, agent))| <= |s|
    && s[..p] == COOKIE + Encode(Items(k, a, agent))
  }

  lemma WrittenNone(s: seq<Byte>, a: Answer, agent: seq<Byte>)
    requires |s| >= 4 && s[..4] == COOKIE
    ensures Written(s, 4, 0, a, agent)
  {
  }

  lemma AnyService(services: bv16)
    ensures services & ANY_SERVICE == services
  {
  }

  lemma NoItems(k: nat, a: Answer, agent: seq<Byte>)
    requires k < END_ROW && RowItems(DHCP_OPTS[k], a, agent) == []
    ensures Items(k + 1, a, agent) == Items(k, a, agent)
  {
  }

  /** One round of the loop, whether the option's service is on or not. */
  method NextRow(opt: array<Byte>, p: nat, k: nat, a: Answer, agent: seq<Byte>) returns (pOpt: nat)
    requires a.Valid() && |agent| < 256 && k < END_ROW && Fits(a, agent) && opt.Length >= DHCP_OPTION_LEN
    requires Written(opt[..], p, k, a, agent)
    modifies opt
    ensures Written(opt[..], pOpt, k + 1, a, agent)
  {
    hide Encode, Items, VariableItems, FixedValue;
    var r := DHCP_OPTS[k];
    pOpt := p;
    RowFits(k, a, agent);
    if a.services & r.nServices == 0 {
      NoItems(k, a, agent);
    } else {
      FixedLength(k, a);
      pOpt := StoreRow(opt, p, r, a, agent);
      Associative(COOKIE, Encode(Items(k, a, agent)), Encode(RowItems(r, a, agent)));
    }
  }

  /** The field holds the cookie, the options and the end option, and the size is that of the packet up to there. */
  ghost predicate Answered(s: seq<Byte>, a: Answer, agent: seq<Byte>, msgSize: nat) {
    && Fits(a, agent)
    && Holds(s, 0, COOKIE + Encode(ReplyItems(a, agent)) + [DHO_END])
    && msgSize == DHCP_FIXED_NON_UDP + 5 + |Encode(ReplyItems(a, agent))|
  }

  method SaveAgent(opt: array<Byte>) returns (agent: seq<Byte>)
    requires Readable(opt[..])
    ensures agent == Agent(opt[..])
  {
    var at, length := DHCPSearchOptionsField(opt, DHO_DHCP_AGENT_OPTIONS);
    agent := [];
    if at.Some? {
      agent := opt[at.value..at.value + length];
    }
  }

  method StoreEnd(opt: array<Byte>, p: nat, a: Answer, agent: seq<Byte>) returns (pOpt: nat)
    requires Fits(a, agent) && Written(opt[..], p, END_ROW, a, agent) && opt.Length >= DHCP_OPTION_LEN
    modifies opt
    ensures Answered(opt[..], a, agent, DHCP_FIXED_NON_UDP + pOpt)
  {
    hide Encode, Items;
    Store(opt, p, [DHO_END]);
    pOpt := p + 1;
  }

  /** Writes the answer's options over those of the request; the size counts the fixed part of the packet. */
  method DHCPOptionsReply(opt: array<Byte>, a: Answer) returns (msgSize: nat)
    requires Readable(opt[..]) && a.Valid() && Fits(a, Agent(opt[..]))
    modifies opt
    ensures a.services != 0 ==> Answered(opt[..], a, Agent(old(opt[..])), msgSize)
  {
    hide Encode, Items, Value, Written;
    var agent := SaveAgent(opt);
    Store(opt, 0, COOKIE);
    var pOpt: nat := 4;
    WrittenNone(opt[..], a, agent);
    AnyService(a.services);
    for ark := 0 to |DHCP_OPTS|
      invariant ark <= END_ROW ==> Written(opt[..], pOpt, ark, a, agent)
      invariant ark > END_ROW && a.services != 0 ==> Answered(opt[..], a, agent, DHCP_FIXED_NON_UDP + pOpt)
    {
      if ark < END_ROW {
        pOpt := NextRow(opt, pOpt, ark, a, agent);
      } else if a.services & DHCP_OPTS[ark].nServices != 0 {
        pOpt := StoreEnd(opt, pOpt, a, agent);
      }
    }
    msgSize := DHCP_FIXED_NON_UDP + pOpt;
    if msgSize < 64 {
      assert false; // never padded: the fixed part alone is longer
    }
  }

  // ----- what the search finds in the answer

  predicate UsedProperly(c: Custom) {
    c.nAddOption != 0 ==> c.nAddOption % 0x100 != DHO_PAD
  }

  /** No custom option in use gets the code of the padding. */
  ghost predicate ProperCodes(a: Answer) {
    forall i :: 0 <= i < |a.custom| ==> UsedProperly(a.custom[i])
  }

  lemma {:induction false} FirstOfConcat(x: seq<Item>, y: seq<Item>, code: int)
    ensures FirstValue(x + y, code) == if FirstValue(x, code).Some? then FirstValue(x, code) else FirstValue(y, code)
  {
    if x == [] {
      assert x + y == y;
    } else {
      FirstOfConcat(x[1..], y, code);
      assert (x + y)[1..] == x[1..] + y;
    }
  }

  lemma {:induction false} CustomValid(cs: seq<Custom>)
    requires forall i :: 0 <= i < |cs| ==> |cs[i].value| < 64 && UsedProperly(cs[i])
    ensures ValidItems(CustomItems(cs))
  {
    if cs == [] {
    } else {
      CustomValid(cs[..|cs| - 1]);
    }
  }

  lemma TableRowValid(k: nat, a: Answer, agent: seq<Byte>)
    requires a.Valid() && |agent| < 256 && k < CUSTOM_ROW
    ensures ValidItems(RowItems(DHCP_OPTS[k], a, agent))
  {
    RowShort(DHCP_OPTS[k], a, agent);
  }

  lemma {:induction false} TableValid(k: nat, a: Answer, agent: seq<Byte>)
    requires a.Valid() && |agent| < 256 && k <= CUSTOM_ROW
    ensures ValidItems(Items(k, a, agent))
  {
    hide RowItems;
    if k == 0 {
    } else {
      TableValid(k - 1, a, agent);
      TableRowValid(k - 1, a, agent);
    }
  }

  /** The options of the table and those among the first k custom ones. */
  ghost function ItemsUpTo(k: nat, a: Answer, agent: seq<Byte>): seq<Item>
    requires k <= |a.custom|
  {
    Items(CUSTOM_ROW, a, agent) + CustomItems(a.custom[..k])
  }

  lemma {:induction false} CustomSplits(cs: seq<Custom>, k: nat) returns (rest: seq<Item>)
    requires k <= |cs|
    ensures CustomItems(cs) == CustomItems(cs[..k]) + rest
  {
    if k == |cs| {
      rest := [];
      assert cs[..k] == cs;
    } else {
      var n := |cs| - 1;
      rest := CustomSplits(cs[..n], k);
      assert cs[..n][..k] == cs[..k];
      rest := rest + Given(cs[n].nAddOption != 0, cs[n].nAddOption % 0x100, cs[n].value);
    }
  }

  lemma CustomRow(a: Answer, agent: seq<Byte>)
    requires a.services != 0
    ensures RowItems(DHCP_OPTS[CUSTOM_ROW], a, agent) == CustomItems(a.custom)
  {
    hide CustomItems, FixedValue;
    AnyService(a.services);
  }

  lemma AllItems(a: Answer, agent: seq<Byte>)
    requires a.services != 0
    ensures ReplyItems(a, agent) == Items(CUSTOM_ROW, a, agent) + CustomItems(a.custom)
    ensures ReplyItems(a, agent) == ItemsUpTo(|a.custom|, a, agent)
  {
    hide RowItems, CustomItems;
    CustomRow(a, agent);
    assert a.custom[..|a.custom|] == a.custom;
  }

  lemma ReplySplits(a: Answer, agent: seq<Byte>, k: nat) returns (rest: seq<Item>)
    requires a.services != 0 && k <= |a.custom| && ShortItems(ReplyItems(a, agent))
    ensures ReplyItems(a, agent) == ItemsUpTo(k, a, agent) + rest && ShortItems(rest)
    ensures k < |a.custom| && a.custom[k].nAddOption != 0 ==>
      rest != [] && rest[0] == Opt(a.custom[k].nAddOption % 0x100, a.custom[k].value)
  {
    hide ShortItems, Items;
    AllItems(a, agent);
    rest := CustomSplits(a.custom, k);
    Associative(Items(CUSTOM_ROW, a, agent), CustomItems(a.custom[..k]), rest);
    ShortTail(ItemsUpTo(k, a, agent), rest);
    if k < |a.custom| && a.custom[k].nAddOption != 0 {
      var more := CustomSplits(a.custom, k + 1);
      var own := [Opt(a.custom[k].nAddOption % 0x100, a.custom[k].value)];
      assert a.custom[..k + 1][..k] == a.custom[..k];
      assert CustomItems(a.custom[..k + 1]) == CustomItems(a.custom[..k]) + own;
      Associative(CustomItems(a.custom[..k]), own, more);
      SameTail(CustomItems(a.custom[..k]), rest, own + more);
    }
  }

  lemma SameTail<T>(x: seq<T>, y: seq<T>, z: seq<T>)
    requires x + y == x + z
    ensures y == z
  {
    assert (x + y)[|x|..] == y && (x + z)[|x|..] == z;
  }

  lemma ShortTail(x: seq<Item>, y: seq<Item>)
    requires ShortItems(x + y)
    ensures ShortItems(y)
  {
    assert forall k :: 0 <= k < |y| ==> y[k] == (x + y)[|x| + k];
  }

  lemma RowsDiffer(j: nat, k: nat)
    requires j < CUSTOM_ROW && k < CUSTOM_ROW && j != k
    ensures DHCP_OPTS[j].nDHCPOpt != DHCP_OPTS[k].nDHCPOpt
  {
  }

  /** A row of the table writes its own option or nothing. */
  lemma RowHasOwn(k: nat, a: Answer, agent: seq<Byte>, code: int)
    requires k < CUSTOM_ROW && code != DHCP_OPTS[k].nDHCPOpt
    ensures FirstValue(RowItems(DHCP_OPTS[k], a, agent), code) == None
  {
    hide FixedValue, BootBlocks;
  }

  lemma FirstOfNone(code: int)
    ensures FirstValue([], code) == None
  {
  }

  lemma {:induction false} FirstOfRows(k: nat, j: nat, a: Answer, agent: seq<Byte>, code: int, own: Option<seq<Byte>>)
    requires k <= END_ROW && j < CUSTOM_ROW && code == DHCP_OPTS[j].nDHCPOpt
    requires own == FirstValue(RowItems(DHCP_OPTS[j], a, agent), code)
    ensures k <= j ==> FirstValue(Items(k, a, agent), code) == None
    ensures k > j && own.Some? ==> FirstValue(Items(k, a, agent), code) == own
  {
    hide RowItems, FirstValue;
    if k == 0 {
      FirstOfNone(code);
    } else {
      FirstOfRows(k - 1, j, a, agent, code, own);
      FirstOfConcat(Items(k - 1, a, agent), RowItems(DHCP_OPTS[k - 1], a, agent), code);
      if k - 1 < j {
        RowsDiffer(j, k - 1);
        RowHasOwn(k - 1, a, agent, code);
      }
    }
  }

  /** Whoever searches the answer finds, for every code, the value written first: among all options if their codes are
      proper, and in any case among those written before the first custom option that is not. */
  lemma AnswerIsRead(s: seq<Byte>, a: Answer, agent: seq<Byte>, msgSize: nat, code: int, k: nat)
    requires Readable(s) && a.Valid() && |agent| < 256 && a.services != 0 && code != DHO_PAD
    requires k <= |a.custom| && forall i :: 0 <= i < k ==> UsedProperly(a.custom[i])
    requires Answered(s, a, agent, msgSize)
    ensures var first := FirstValue(ItemsUpTo(k, a, agent), code); first.Some? ==> Value(s, code) == first
  {
    hide Holds, Value, Items;
    TableValid(CUSTOM_ROW, a, agent);
    CustomValid(a.custom[..k]);
    var rest := ReplySplits(a, agent, k);
    if FirstValue(ItemsUpTo(k, a, agent), code).Some? {
      PrefixFinds(s, ItemsUpTo(k, a, agent), rest, code);
    }
  }

  /** The options of the table come before the custom ones, which therefore cannot replace or hide them. */
  lemma TableComesFirst(s: seq<Byte>, a: Answer, agent: seq<Byte>, msgSize: nat, j: nat)
    requires Readable(s) && a.Valid() && |agent| < 256 && a.services != 0 && j < CUSTOM_ROW
    requires Answered(s, a, agent, msgSize)
    ensures var code := DHCP_OPTS[j].nDHCPOpt;
            var own := FirstValue(RowItems(DHCP_OPTS[j], a, agent), code);
            own.Some? ==> Value(s, code) == own
  {
    hide RowItems, Value, Answered, Items;
    var code := DHCP_OPTS[j].nDHCPOpt;
    FirstOfRows(CUSTOM_ROW, j, a, agent, code, FirstValue(RowItems(DHCP_OPTS[j], a, agent), code));
    assert ItemsUpTo(0, a, agent) == Items(CUSTOM_ROW, a, agent);
    AnswerIsRead(s, a, agent, msgSize, code, 0);
  }

  /** Relay agent information goes back as it came, whatever the settings. */
  lemma AgentIsEchoed(request: seq<Byte>, s: seq<Byte>, a: Answer, msgSize: nat)
    requires Readable(request) && Readable(s) && a.Valid() && a.services != 0
    requires Value(request, 82).Some? && Value(request, 82).value != [] && Answered(s, a, Agent(request), msgSize)
    ensures Value(s, 82) == Value(request, 82)
  {
    hide Answered, Search;
    AnyService(a.services);
    TableComesFirst(s, a, Agent(request), msgSize, 15);
  }

  lemma FixedIsRead(s: seq<Byte>, a: Answer, agent: seq<Byte>, msgSize: nat, j: nat, code: Byte, value: seq<Byte>)
    requires Readable(s) && a.Valid() && |agent| < 256 && a.services != 0
    requires Answered(s, a, agent, msgSize)
    requires j < CUSTOM_ROW && DHCP_OPTS[j] == Row(code, DHCP_OPTS[j].nLen, ANY_SERVICE) && DHCP_OPTS[j].nLen != 0
    requires value == FixedValue(code, a)
    ensures Value(s, code) == Some(value)
  {
    hide Answered, Value, FixedValue, VariableItems;
    AnyService(a.services);
    TableComesFirst(s, a, agent, msgSize, j);
  }

  /** Every answer carries its message type, the server's address, the mask and the lease time of the settings. */
  lemma AnswerNamesLease(s: seq<Byte>, a: Answer, agent: seq<Byte>, msgSize: nat)
    requires Readable(s) && a.Valid() && |agent| < 256 && a.services != 0
    requires Answered(s, a, agent, msgSize)
    ensures Value(s, DHO_DHCP_MESSAGE_TYPE) == Some([a.nDhcpType % 0x100])
    ensures Value(s, DHO_DHCP_SERVER_IDENTIFIER) == Some(a.nearest) && Value(s, DHO_SUBNET_MASK) == Some(a.mask)
    ensures Value(s, DHO_DHCP_LEASE_TIME) == Some(BigEndian(a.nLease * 60))
  {
    hide Answered, Value, BigEndian, Readable;
    FixedIsRead(s, a, agent, msgSize, 0, DHO_DHCP_MESSAGE_TYPE, [a.nDhcpType % 0x100]);
    FixedIsRead(s, a, agent, msgSize, 1, DHO_DHCP_SERVER_IDENTIFIER, a.nearest);
    FixedIsRead(s, a, agent, msgSize, 2, DHO_SUBNET_MASK, a.mask);
    FixedIsRead(s, a, agent, msgSize, 6, DHO_DHCP_LEASE_TIME, BigEndian(a.nLease * 60));
  }

  // ----- what the client gets

  /** The bytes sent, then zeros. */
  ghost function Copy(s: seq<Byte>, msgSize: nat): seq<Byte>
    requires Readable(s) && DHCP_FIXED_NON_UDP <= msgSize <= DHCP_FIXED_NON_UDP + |s|
  {
    var n := msgSize - DHCP_FIXED_NON_UDP;
    s[..n] + seq(|s| - n, i => DHO_PAD)
  }

  lemma CopyHolds(s: seq<Byte>, a: Answer, agent: seq<Byte>, msgSize: nat)
    requires Readable(s) && Answered(s, a, agent, msgSize)
    ensures Readable(Copy(s, msgSize)) && Answered(Copy(s, msgSize), a, agent, msgSize)
    ensures forall k :: 5 + |Encode(ReplyItems(a, agent))| <= k < |s| ==> Copy(s, msgSize)[k] == DHO_PAD
  {
    hide ReplyItems, ShortItems, Encode;
    var t, n := Copy(s, msgSize), msgSize - DHCP_FIXED_NON_UDP;
    assert t[..n] == s[..n];
  }

  /** In what was sent the search finds every option written, and no other. */
  ghost predicate FindsAll(s: seq<Byte>, a: Answer, agent: seq<Byte>, msgSize: nat)
    requires Readable(s) && DHCP_FIXED_NON_UDP <= msgSize <= DHCP_FIXED_NON_UDP + |s|
  {
    forall code :: code != DHO_PAD && code != DHO_END ==>
      Value(Copy(s, msgSize), code) == FirstValue(ReplyItems(a, agent), code)
  }

  ghost predicate AlwaysFindsAll(a: Answer, agent: seq<Byte>) {
    forall s, msgSize :: Readable(s) && Answered(s, a, agent, msgSize) ==> FindsAll(s, a, agent, msgSize)
  }

  lemma ProperAreFound(s: seq<Byte>, a: Answer, agent: seq<Byte>, msgSize: nat)
    requires Readable(s) && a.Valid() && ProperCodes(a) && |agent| < 256 && a.services != 0
    requires Answered(s, a, agent, msgSize)
    ensures FindsAll(s, a, agent, msgSize)
  {
    hide Value, Items, CustomItems, Encode, Holds, Copy;
    TableValid(CUSTOM_ROW, a, agent);
    CustomValid(a.custom);
    AllItems(a, agent);
    CopyHolds(s, a, agent, msgSize);
    forall code | code != DHO_PAD && code != DHO_END
      ensures Value(Copy(s, msgSize), code) == FirstValue(ReplyItems(a, agent), code)
    {
      SearchIsFirst(Copy(s, msgSize), ReplyItems(a, agent), code);
    }
  }

  /** The same option numbers, with other values. */
  ghost predicate SameNumbers(cs: seq<Custom>, cs': seq<Custom>) {
    && |cs| == |cs'|
    && forall i :: 0 <= i < |cs| ==> cs[i].nAddOption == cs'[i].nAddOption && |cs[i].value| < 64
  }

  lemma {:induction false} FirstImproper(cs: seq<Custom>) returns (k: nat)
    requires exists i :: 0 <= i < |cs| && !UsedProperly(cs[i])
    ensures k < |cs| && !UsedProperly(cs[k]) && forall i :: 0 <= i < k ==> UsedProperly(cs[i])
  {
    var n := |cs| - 1;
    if exists i :: 0 <= i < n && !UsedProperly(cs[i]) {
      var i :| 0 <= i < n && !UsedProperly(cs[i]);
      assert cs[..n][i] == cs[i];
      k := FirstImproper(cs[..n]);
    } else {
      k := n;
    }
  }

  /** Between 16 and 16 + |codes| there is a code that is not in the set. */
  lemma {:induction false} UnusedFrom(codes: set<int>, x: int) returns (code: int)
    ensures x <= code <= x + |codes| && code !in codes
    decreases |codes|
  {
    if x !in codes {
      code := x;
    } else {
      code := UnusedFrom(codes - {x}, x + 1);
    }
  }

  lemma {:induction false} CodesOf(cs: seq<Custom>) returns (codes: set<int>)
    ensures |codes| <= |cs| && forall i :: 0 <= i < |cs| ==> cs[i].nAddOption % 0x100 in codes
  {
    if cs == [] {
      codes := {};
    } else {
      var before := CodesOf(cs[..|cs| - 1]);
      codes := before + {cs[|cs| - 1].nAddOption % 0x100};
    }
  }

  lemma {:induction false} NotCustom(cs: seq<Custom>, code: int)
    requires forall i :: 0 <= i < |cs| ==> cs[i].nAddOption % 0x100 != code
    ensures FirstValue(CustomItems(cs), code) == None
  {
    if cs == [] {
    } else {
      var n := |cs| - 1;
      NotCustom(cs[..n], code);
      FirstOfConcat(CustomItems(cs[..n]), Given(cs[n].nAddOption != 0, cs[n].nAddOption % 0x100, cs[n].value), code);
    }
  }

  lemma {:induction false} NotInTable(k: nat, a: Answer, agent: seq<Byte>, code: int)
    requires k <= CUSTOM_ROW && 16 <= code <= 40
    ensures FirstValue(Items(k, a, agent), code) == None
  {
    hide RowItems, FirstValue;
    if k == 0 {
      FirstOfNone(code);
    } else {
      NotInTable(k - 1, a, agent, code);
      FirstOfConcat(Items(k - 1, a, agent), RowItems(DHCP_OPTS[k - 1], a, agent), code);
      RowHasOwn(k - 1, a, agent, code);
    }
  }

  function RowBound(k: nat): nat {
    if k == 13 || k == 15 then 257 else if k == 14 then 129 else 10
  }

  lemma RowLength(k: nat, a: Answer, agent: seq<Byte>)
    requires a.Valid() && |agent| < 256 && k < CUSTOM_ROW
    ensures ShortItems(RowItems(DHCP_OPTS[k], a, agent))
    ensures |Encode(RowItems(DHCP_OPTS[k], a, agent))| <= RowBound(k)
  {
    hide Encode;
    RowShort(DHCP_OPTS[k], a, agent);
    FixedLength(k, a);
    EncodeNone();
    var items := RowItems(DHCP_OPTS[k], a, agent);
    if items != [] {
      assert items == [items[0]];
      EncodeOne(items[0]);
    }
  }

  function TableBound(k: nat): nat {
    if k == 0 then 0 else TableBound(k - 1) + RowBound(k - 1)
  }

  lemma {:induction false} TableLength(k: nat, a: Answer, agent: seq<Byte>)
    requires a.Valid() && |agent| < 256 && k <= CUSTOM_ROW
    ensures ShortItems(Items(k, a, agent)) && |Encode(Items(k, a, agent))| <= TableBound(k)
  {
    hide Encode, RowItems, RowBound;
    if k == 0 {
      EncodeNone();
    } else {
      TableLength(k - 1, a, agent);
      RowLength(k - 1, a, agent);
      EncodeConcat(Items(k - 1, a, agent), RowItems(DHCP_OPTS[k - 1], a, agent));
    }
  }

  lemma {:induction false} CustomLength(cs: seq<Custom>)
    requires forall i :: 0 <= i < |cs| ==> |cs[i].value| <= 26
    ensures ShortItems(CustomItems(cs)) && |Encode(CustomItems(cs))| <= 28 * |cs|
  {
    hide Encode;
    CustomShort(cs);
    EncodeNone();
    if cs == [] {
    } else {
      var n := |cs| - 1;
      CustomLength(cs[..n]);
      EncodeOne(Opt(cs[n].nAddOption % 0x100, cs[n].value));
      EncodeConcat(CustomItems(cs[..n]), Given(cs[n].nAddOption != 0, cs[n].nAddOption % 0x100, cs[n].value));
    }
  }

  /** Answers with short custom values fit the field. */
  lemma ShortAnswerFits(a: Answer, agent: seq<Byte>)
    requires a.Valid() && |agent| < 256 && a.services != 0
    requires forall i :: 0 <= i < |a.custom| ==> |a.custom[i].value| <= 26
    ensures Fits(a, agent)
  {
    hide Encode, Items, CustomItems;
    TableLength(CUSTOM_ROW, a, agent);
    CustomLength(a.custom);
    AllItems(a, agent);
    EncodeConcat(Items(CUSTOM_ROW, a, agent), CustomItems(a.custom));
    TableSum();
  }

  lemma TableSum()
    ensures TableBound(CUSTOM_ROW) == 13 * 10 + 2 * 257 + 129
  {
    assert TableBound(13) == 130 by {
      assert TableBound(5) == 50 && TableBound(10) == 100;
    }
  }

  /** A field that the answer leaves, with zeros behind it. */
  ghost function FieldOf(a: Answer, agent: seq<Byte>): (s: seq<Byte>)
    requires Fits(a, agent)
    ensures Readable(s) && Answered(s, a, agent, DHCP_FIXED_NON_UDP + 5 + |Encode(ReplyItems(a, agent))|)
  {
    var b := COOKIE + Encode(ReplyItems(a, agent)) + [DHO_END];
    b + seq(DHCP_OPTION_LEN + SLACK - |b|, i => 0)
  }

  function Blank(cs: seq<Custom>, k: nat, n: nat): (cs': seq<Custom>)
    ensures |cs'| == |cs| && forall i :: 0 <= i < |cs| ==>
      cs'[i].nAddOption == cs[i].nAddOption && cs'[i].value == if i == k then seq(n, _ => 0) else []
  {
    seq(|cs|, i requires 0 <= i < |cs| => Custom(cs[i].nAddOption, if i == k then seq(n, _ => 0) else []))
  }

  /** Values for which a number that is a multiple of 256 does harm: its own starts with zero and is as long as the code
      of an option that nobody wrote, and this option is found. */
  lemma Misleading(a: Answer, agent: seq<Byte>) returns (cs: seq<Custom>, s: seq<Byte>, msgSize: nat)
    requires a.Valid() && |agent| < 256 && a.services != 0 && !ProperCodes(a)
    ensures SameNumbers(cs, a.custom) && Readable(s) && Answered(s, a.(custom := cs), agent, msgSize)
    ensures !FindsAll(s, a.(custom := cs), agent, msgSize)
  {
    hide Encode, Items, CustomItems, Holds, Value, Copy, FieldOf;
    var k := FirstImproper(a.custom);
    var codes := CodesOf(a.custom);
    var code := UnusedFrom(codes, 16);
    cs := Blank(a.custom, k, code);
    var a' := a.(custom := cs);
    ShortAnswerFits(a', agent);
    s := FieldOf(a', agent);
    msgSize := DHCP_FIXED_NON_UDP + 5 + |Encode(ReplyItems(a', agent))|;
    CopyHolds(s, a', agent, msgSize);
    NotWritten(a', agent, code, |cs|);
    AllItems(a', agent);
    PhantomFound(Copy(s, msgSize), a', agent, msgSize, k, code);
    assert Value(Copy(s, msgSize), code) != FirstValue(ReplyItems(a', agent), code);
  }

  lemma NotWritten(a: Answer, agent: seq<Byte>, code: int, k: nat)
    requires 16 <= code <= 40 && k <= |a.custom|
    requires forall i :: 0 <= i < |a.custom| ==> a.custom[i].nAddOption % 0x100 != code
    ensures FirstValue(ItemsUpTo(k, a, agent), code) == None
  {
    NotInTable(CUSTOM_ROW, a, agent, code);
    NotCustom(a.custom[..k], code);
    FirstOfConcat(Items(CUSTOM_ROW, a, agent), CustomItems(a.custom[..k]), code);
  }

  lemma PhantomFound(s: seq<Byte>, a: Answer, agent: seq<Byte>, msgSize: nat, k: nat, code: int)
    requires Readable(s) && a.Valid() && |agent| < 256 && a.services != 0 && Answered(s, a, agent, msgSize)
    requires k < |a.custom| && (forall i :: 0 <= i < k ==> UsedProperly(a.custom[i])) && !UsedProperly(a.custom[k])
    requires 16 <= code <= 40 && |a.custom[k].value| == code && a.custom[k].value[0] == 0
    requires forall i :: 0 <= i < |a.custom| ==> a.custom[i].nAddOption % 0x100 != code
    ensures Value(s, code) == Some([])
  {
    hide Encode, Items, CustomItems, Holds, Value;
    TableValid(CUSTOM_ROW, a, agent);
    CustomValid(a.custom[..k]);
    NotWritten(a, agent, code, k);
    var rest := ReplySplits(a, agent, k);
    assert rest == [rest[0]] + rest[1..];
    Phantom(s, ItemsUpTo(k, a, agent), a.custom[k].value, rest[1..]);
  }

  /** Whatever the values of the custom options, the search finds what was written and nothing else: exactly when no
      number in use is a multiple of 256. */
  lemma AlwaysFindsAllIff(a: Answer, agent: seq<Byte>)
    requires a.Valid() && |agent| < 256 && a.services != 0
    ensures (forall cs :: SameNumbers(cs, a.custom) ==> AlwaysFindsAll(a.(custom := cs), agent)) <==> ProperCodes(a)
  {
    if ProperCodes(a) {
      forall cs, s, msgSize | SameNumbers(cs, a.custom) && Readable(s) && Answered(s, a.(custom := cs), agent, msgSize)
        ensures FindsAll(s, a.(custom := cs), agent, msgSize)
      {
        assert forall i :: 0 <= i < |cs| ==> UsedProperly(a.custom[i]) && UsedProperly(cs[i]);
        ProperAreFound(s, a.(custom := cs), agent, msgSize);
      }
    } else {
      var cs, s, msgSize := Misleading(a, agent);
    }
  }

  // ----- what a reader that stops at the end option gets

  predicate UsedByClients(c: Custom) {
    c.nAddOption != 0 ==> c.nAddOption % 0x100 != DHO_PAD && c.nAddOption % 0x100 != DHO_END
  }

  lemma {:induction false} CustomProper(cs: seq<Custom>)
    ensures (forall i :: 0 <= i < |cs| ==> UsedByClients(cs[i])) <==> forall i <- CustomItems(cs) :: Proper(i)
  {
    if cs == [] {
    } else {
      var n := |cs| - 1;
      CustomProper(cs[..n]);
      var own := Given(cs[n].nAddOption != 0, cs[n].nAddOption % 0x100, cs[n].value);
      assert (forall i <- own :: Proper(i)) <==> UsedByClients(cs[n]) by {
        assert own != [] ==> own[0] in own;
      }
      ProperConcat(CustomItems(cs[..n]), own);
      assert (forall i :: 0 <= i < n ==> UsedByClients(cs[..n][i]))
        <==> forall i :: 0 <= i < n ==> UsedByClients(cs[i]);
    }
  }

  lemma ProperConcat(x: seq<Item>, y: seq<Item>)
    ensures (forall i <- x + y :: Proper(i)) <==> (forall i <- x :: Proper(i)) && forall i <- y :: Proper(i)
  {
    if forall i <- x + y :: Proper(i) {
      assert forall i <- x :: i in x + y;
      assert forall i <- y :: i in x + y;
    }
  }

  lemma {:induction false} TableProper(k: nat, a: Answer, agent: seq<Byte>)
    requires k <= CUSTOM_ROW
    ensures forall i <- Items(k, a, agent) :: Proper(i)
  {
    hide RowItems;
    if k == 0 {
    } else {
      TableProper(k - 1, a, agent);
      RowProper(k - 1, a, agent);
    }
  }

  lemma RowProper(k: nat, a: Answer, agent: seq<Byte>)
    requires k < CUSTOM_ROW
    ensures forall i <- RowItems(DHCP_OPTS[k], a, agent) :: Proper(i)
  {
  }

  /** A client that reads the bytes sent as section 2 of RFC 2132 has it gets the options written, in order: exactly
      when no custom number in use has the code of the padding or of the end option. */
  lemma ClientReadsIff(s: seq<Byte>, a: Answer, agent: seq<Byte>, msgSize: nat)
    requires Readable(s) && a.Valid() && |agent| < 256 && a.services != 0 && Answered(s, a, agent, msgSize)
    ensures Parse(s[4..msgSize - DHCP_FIXED_NON_UDP]) == ReplyItems(a, agent)
       <==> forall i :: 0 <= i < |a.custom| ==> UsedByClients(a.custom[i])
  {
    hide Parse, Encode, Items, CustomItems;
    var items := ReplyItems(a, agent);
    var sent := s[4..msgSize - DHCP_FIXED_NON_UDP];
    assert s[0..msgSize - DHCP_FIXED_NON_UDP] == COOKIE + Encode(items) + [DHO_END];
    assert sent == Encode(items) + [DHO_END] + [];
    AllItems(a, agent);
    TableProper(CUSTOM_ROW, a, agent);
    CustomProper(a.custom);
    ProperConcat(Items(CUSTOM_ROW, a, agent), CustomItems(a.custom));
    if Parse(sent) == items {
      ParsedAreProper(sent);
    }
    if forall i <- items :: Proper(i) {
      ParseOfEncoded(items, []);
    }
  }
}
