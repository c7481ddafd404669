/** `generate_random_mac`: a consent prompt repeated until the lower-cased
    answer is `y` or `n`, then (on `y`) an address made of one vendor prefix
    from a fixed pool and three random octets. The random draws and the
    typed answers are parameters here. */
module RandomMac {
  import opened HexText
  import MacFormat

  /** The `industrial_oui` pool, in source order: Cisco, Google, HP,
      Motorola/Lenovo. */
  const IndustrialOui: seq<seq<string>> := [
    ["CC", "46", "D6"],
    ["3C", "5A", "B4"],
    ["3C", "D9", "28"],
    ["24", "46", "CB"]
  ]

  /** The pool as it appears, lower-cased and colon-joined, at the head of a
      generated address. */
  const KnownPrefixes: set<string> := set k | 0 <= k < 4 :: PrefixText(k)

  /** Entry `k` of the pool as it appears in an address. */
  function PrefixText(k: int): (p: string)
    requires 0 <= k < 4
    ensures |p| == 8
    ensures forall i :: 0 <= i < 8 ==> if i % 3 == 2 then p[i] == ':' else IsLowerHexDigit(p[i])
  {
    ["cc:46:d6", "3c:5a:b4", "3c:d9:28", "24:46:cb"][k]
  }

  /** `randrange(0, 255)` draws from 0 to 254: 255 is excluded. */
  const OctetBound: int := 255

  /** The four values drawn by `randrange`, in call order: the three random
      octets, then the index into the pool. */
  datatype Draws = Draws(octet1: int, octet2: int, octet3: int, ouiIndex: int) {
    predicate InRange() {
      && 0 <= octet1 < OctetBound
      && 0 <= octet2 < OctetBound
      && 0 <= octet3 < OctetBound
      && 0 <= ouiIndex < |IndustrialOui|
    }
  }

  /** The parts joined into the address, before lower-casing: the chosen
      pool entry followed by the three `%02x` octets. */
  function MacParts(d: Draws): (parts: seq<string>)
    requires d.InRange()
  {
    IndustrialOui[d.ouiIndex] + [FormatOctet(d.octet1), FormatOctet(d.octet2), FormatOctet(d.octet3)]
  }

  /** The parts joined with `:` and lower-cased. */
  function JoinedMac(d: Draws): (mac: string)
    requires d.InRange()
  {
    Lower(Join(MacParts(d), ":"))
  }

  /** The address built from the draws: six lower-case hex pairs separated
      by colons that pass the validator of `get_args`, beginning with the
      chosen pool entry, whose last three groups read back as the three
      draws (so none is `ff`) and whose prefix names the pool entry alone. */
  function GenerateMac(d: Draws): (mac: string)
    requires d.InRange()
    ensures IsCanonicalMac(mac)
    ensures MacFormat.MatchesMacPattern(mac)
    ensures mac[..8] == PrefixText(d.ouiIndex)
    ensures forall e :: 0 <= e < |IndustrialOui| && mac[..8] == PrefixText(e) ==> e == d.ouiIndex
    ensures IsHexPair(Group(mac, 3)) && OctetValue(Group(mac, 3)) == d.octet1
    ensures IsHexPair(Group(mac, 4)) && OctetValue(Group(mac, 4)) == d.octet2
    ensures IsHexPair(Group(mac, 5)) && OctetValue(Group(mac, 5)) == d.octet3
    ensures forall k :: 3 <= k < 6 ==> Group(mac, k) != "ff"
  {
    JoinedMacShape(d);
    JoinedMacValidates(d);
    JoinedMacOctets(d);
    JoinedMacPrefix(d);
    JoinedMac(d)
  }

  /** Group `k` (0 to 5) of a colon-separated seventeen-character address. */
  function Group(mac: string, k: int): (g: string)
    requires |mac| == 17 && 0 <= k < 6
    ensures |g| == 2
  {
    mac[3 * k .. 3 * k + 2]
  }

  /** Six lower-case hex pairs separated by colons. */
  predicate IsCanonicalMac(mac: string) {
    && |mac| == 17
    && forall i :: 0 <= i < 17 ==> if i % 3 == 2 then mac[i] == ':' else IsLowerHexDigit(mac[i])
  }

  /** Each pool entry is three hex pairs; lower-cased and colon-joined it is
      one of the known prefixes. */
  lemma PoolEntry(k: int)
    requires 0 <= k < |IndustrialOui|
    ensures |IndustrialOui[k]| == 3 && AllPairs(IndustrialOui[k])
    ensures forall j :: 0 <= j < 3 ==> IsHexPair(IndustrialOui[k][j])
    ensures Lower(Join(IndustrialOui[k], ":")) == PrefixText(k)
  {
    var p := IndustrialOui[k];
    assert Join(p, ":") == p[0] + ":" + p[1] + ":" + p[2];
    var joined := Join(p, ":");
    var expected := PrefixText(k);
    forall i | 0 <= i < 8 ensures Lower(joined)[i] == expected[i] {}
    assert Lower(joined) == expected;
  }

  lemma MacPartsArePairs(d: Draws)
    requires d.InRange()
    ensures |MacParts(d)| == 6 && AllPairs(MacParts(d))
    ensures forall k :: 0 <= k < 6 ==> IsHexPair(MacParts(d)[k])
  {
    PoolEntry(d.ouiIndex);
  }

  /** Group `k` of the joined address is part `k`, lower-cased. */
  lemma GeneratedGroups(d: Draws)
    requires d.InRange()
    ensures |MacParts(d)| == 6
    ensures |JoinedMac(d)| == 17
    ensures forall i :: 0 <= i < 17 && i % 3 == 2 ==> JoinedMac(d)[i] == ':'
    ensures forall k :: 0 <= k < 6 ==> Group(JoinedMac(d), k) == Lower(MacParts(d)[k])
  {
    var parts := MacParts(d);
    MacPartsArePairs(d);
    JoinPairsSeparated(parts, ":");
    var joined := Join(parts, ":");
    assert JoinedMac(d) == Lower(joined);
    forall k | 0 <= k < 6 ensures Group(JoinedMac(d), k) == Lower(parts[k]) {
      JoinedPairAt(parts, ":", k);
      LowerSlice(joined, 3 * k, 3 * k + 2);
    }
  }

  /** The first eight characters of the joined address are the chosen pool
      entry and groups 3 to 5 are the formatted octets. */
  lemma GeneratedLayout(d: Draws)
    requires d.InRange()
    ensures |JoinedMac(d)| == 17
    ensures JoinedMac(d)[..8] == Lower(Join(IndustrialOui[d.ouiIndex], ":"))
    ensures Group(JoinedMac(d), 3) == FormatOctet(d.octet1)
    ensures Group(JoinedMac(d), 4) == FormatOctet(d.octet2)
    ensures Group(JoinedMac(d), 5) == FormatOctet(d.octet3)
  {
    var mac := JoinedMac(d);
    var oui := IndustrialOui[d.ouiIndex];
    GeneratedGroups(d);
    PoolEntry(d.ouiIndex);
    LowerHex(FormatOctet(d.octet1));
    LowerHex(FormatOctet(d.octet2));
    LowerHex(FormatOctet(d.octet3));
    JoinPairsSeparated(oui, ":");
    forall i | 0 <= i < 8 ensures mac[i] == Lower(Join(oui, ":"))[i] {
      if i % 3 != 2 {
        assert mac[i] == Group(mac, i / 3)[i % 3];
      }
    }
  }

  /** Seventeen characters with colons at every third place and six
      lower-case hex pairs in between form a canonical address. */
  lemma CanonicalFromGroups(mac: string)
    requires |mac| == 17
    requires forall i :: 0 <= i < 17 && i % 3 == 2 ==> mac[i] == ':'
    requires forall k :: 0 <= k < 6 ==> IsLowerHexPair(Group(mac, k))
    ensures IsCanonicalMac(mac)
  {
    forall i | 0 <= i < 17 && i % 3 != 2 ensures IsLowerHexDigit(mac[i]) {
      assert mac[i] == Group(mac, i / 3)[i % 3];
    }
  }

  /** The joined address is six lower-case hex pairs separated by colons. */
  lemma JoinedMacShape(d: Draws)
    requires d.InRange()
    ensures IsCanonicalMac(JoinedMac(d))
  {
    var parts := MacParts(d);
    GeneratedGroups(d);
    MacPartsArePairs(d);
    forall k | 0 <= k < 6 ensures IsLowerHexPair(Group(JoinedMac(d), k)) {
      LowerHexPair(parts[k]);
    }
    CanonicalFromGroups(JoinedMac(d));
  }

  /** The joined address passes the validator of `get_args`. */
  lemma JoinedMacValidates(d: Draws)
    requires d.InRange()
    ensures MacFormat.MatchesMacPattern(JoinedMac(d))
  {
    var mac := JoinedMac(d);
    JoinedMacShape(d);
    assert MacFormat.MacShape(mac) by {
      assert mac[2] == ':';
      forall i | 0 <= i < 17 ensures if i % 3 == 2 then mac[i] == mac[2] else IsHexDigit(mac[i]) {}
    }
  }

  /** The random octets can be read back from groups 3 to 5 of the joined
      address, and none of those groups is `ff`. */
  lemma JoinedMacOctets(d: Draws)
    requires d.InRange()
    ensures |JoinedMac(d)| == 17
    ensures IsHexPair(Group(JoinedMac(d), 3)) && OctetValue(Group(JoinedMac(d), 3)) == d.octet1
    ensures IsHexPair(Group(JoinedMac(d), 4)) && OctetValue(Group(JoinedMac(d), 4)) == d.octet2
    ensures IsHexPair(Group(JoinedMac(d), 5)) && OctetValue(Group(JoinedMac(d), 5)) == d.octet3
    ensures forall k :: 3 <= k < 6 ==> Group(JoinedMac(d), k) != "ff"
  {
    GeneratedLayout(d);
    FormatOctetIsFF(d.octet1);
    FormatOctetIsFF(d.octet2);
    FormatOctetIsFF(d.octet3);
  }

  /** The joined address begins with the chosen pool entry, which no other
      entry shares. */
  lemma JoinedMacPrefix(d: Draws)
    requires d.InRange()
    ensures |JoinedMac(d)| == 17
    ensures JoinedMac(d)[..8] == PrefixText(d.ouiIndex)
    ensures forall e :: 0 <= e < |IndustrialOui| && JoinedMac(d)[..8] == PrefixText(e) ==> e == d.ouiIndex
  {
    GeneratedLayout(d);
    PoolEntry(d.ouiIndex);
    PrefixesDistinct();
  }

  /** No two pool entries give the same prefix. */
  lemma PrefixesDistinct()
    ensures forall a, b :: 0 <= a < b < |IndustrialOui| ==>
      Lower(Join(IndustrialOui[a], ":")) != Lower(Join(IndustrialOui[b], ":"))
    ensures forall a, b :: 0 <= a < b < |IndustrialOui| ==> PrefixText(a) != PrefixText(b)
  {
    forall a, b | 0 <= a < b < |IndustrialOui|
      ensures Lower(Join(IndustrialOui[a], ":")) != Lower(Join(IndustrialOui[b], ":"))
    {
      PoolEntry(a);
      PoolEntry(b);
      var pa, pb := PrefixText(a), PrefixText(b);
      var at := if a == 1 && b == 2 then 3 else 0;
      assert pa[at] != pb[at];
    }
  }

  // ---------------------------------------------------------------- consent

  predicate IsYes(answer: string) {
    Lower(answer) == "y"
  }

  predicate IsNo(answer: string) {
    Lower(answer) == "n"
  }

  /** An answer that ends the prompt loop: `y` or `n` after lower-casing. */
  predicate IsDecisive(answer: string) {
    IsYes(answer) || IsNo(answer)
  }

  /** Every answer before position `i` was re-asked. */
  predicate NoneDecisiveBefore(answers: seq<string>, i: int)
    requires 0 <= i <= |answers|
  {
    forall j :: 0 <= j < i ==> !IsDecisive(answers[j])
  }

  /** Where the prompt loop stops: at the first decisive answer (with whether
      it was a yes), or nowhere when input runs out first. */
  datatype Consent = Decided(index: nat, yes: bool) | Exhausted

  /** The `while answer != 'y' and answer != 'n'` loop over the answers typed,
      in order. */
  function AskConsent(answers: seq<string>): (c: Consent)
    ensures c.Decided? ==>
      && c.index < |answers|
      && IsDecisive(answers[c.index])
      && (c.yes <==> IsYes(answers[c.index]))
      && NoneDecisiveBefore(answers, c.index)
    ensures c.Exhausted? <==> NoneDecisiveBefore(answers, |answers|)
  {
    if |answers| == 0 then Exhausted
    else if IsDecisive(answers[0]) then Decided(0, IsYes(answers[0]))
    else match AskConsent(answers[1..])
      case Decided(i, yes) => Decided(i + 1, yes)
      case Exhausted => Exhausted
  }

  /** Only `y`, `Y`, `n` and `N` are decisive; `Y` means yes. */
  lemma DecisiveAnswers(answer: string)
    ensures Lower(answer) == "y" <==> answer == "y" || answer == "Y"
    ensures Lower(answer) == "n" <==> answer == "n" || answer == "N"
  {
    if |answer| == 1 {
      assert Lower(answer) == [LowerChar(answer[0])];
    }
  }

  lemma ConsentExamples()
    ensures AskConsent(["yes", "", "Y", "n"]) == Decided(2, true)
    ensures AskConsent(["maybe", "N"]) == Decided(1, false)
    ensures AskConsent(["no", "yes"]) == Exhausted
  {
    DecisiveAnswers("yes");
    DecisiveAnswers("");
    DecisiveAnswers("Y");
    DecisiveAnswers("maybe");
    DecisiveAnswers("N");
    DecisiveAnswers("no");
    assert ["yes", "", "Y", "n"][1..] == ["", "Y", "n"];
    assert ["", "Y", "n"][1..] == ["Y", "n"];
    assert ["maybe", "N"][1..] == ["N"];
    assert ["no", "yes"][1..] == ["yes"];
    assert ["yes"][1..] == [];
  }

  /** What `generate_random_mac` ends in: an address, the `sys.exit` taken on
      `n`, or end of input before any decisive answer (`input()` raises). */
  datatype Generation = Generated(mac: string) | UserAborted | InputExhausted

  /** The first answer that lower-cases to `y` or `n` decides: `y` yields
      the address built from the draws, which passes validation, and `n`
      aborts; with neither, input runs out. */
  function GenerateRandomMac(answers: seq<string>, d: Draws): (g: Generation)
    requires d.InRange()
    ensures g.Generated? <==>
      exists i :: 0 <= i < |answers| && IsYes(answers[i]) && NoneDecisiveBefore(answers, i)
    ensures g.UserAborted? <==>
      exists i :: 0 <= i < |answers| && IsNo(answers[i]) && NoneDecisiveBefore(answers, i)
    ensures g.InputExhausted? <==> NoneDecisiveBefore(answers, |answers|)
    ensures g.Generated? ==> g.mac == GenerateMac(d) && MacFormat.MatchesMacPattern(g.mac)
  {
    FirstDecisiveUnique(answers);
    match AskConsent(answers)
    case Exhausted => InputExhausted
    case Decided(_, yes) => if yes then Generated(GenerateMac(d)) else UserAborted
  }

  /** No decisive answer other than the one the loop stops at is preceded
      only by re-asked answers. */
  lemma FirstDecisiveUnique(answers: seq<string>)
    ensures AskConsent(answers).Decided? ==>
      forall i :: 0 <= i < |answers| && IsDecisive(answers[i]) && NoneDecisiveBefore(answers, i) ==>
        i == AskConsent(answers).index
  {
  }
}
