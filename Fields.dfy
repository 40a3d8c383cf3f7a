/**
 * The deterministic field generators of the transaction-log generator. Every
 * random draw the generator makes is a parameter here, constrained by the
 * range it is drawn from.
 */
module Fields {
  import opened Results
  import opened Decimal
  import opened Delimited

  // ---------------------------------------------------------------------------
  // IP address: four `randint(0, 255)` octets written with `str` and dotted.

  predicate IsOctet(n: int) {
    0 <= n <= 255
  }

  /** The four octet draws of one address. */
  predicate IsOctetDraws(octets: seq<int>) {
    |octets| == 4 && forall i :: 0 <= i < 4 ==> IsOctet(octets[i])
  }

  function OctetTexts(octets: seq<int>): (texts: seq<string>)
    requires IsOctetDraws(octets)
    ensures |texts| == 4
  {
    [NatToStr(octets[0]), NatToStr(octets[1]), NatToStr(octets[2]), NatToStr(octets[3])]
  }

  /** The address as a value: `str` of each octet, joined by '.'. */
  function DottedQuad(octets: seq<int>): string
    requires IsOctetDraws(octets)
  {
    Join(OctetTexts(octets), '.')
  }

  /**
   * gen_ip_address: builds the address octet by octet, appending a '.'
   * after each of the first three only.
   */
  method IpAddress(octets: seq<int>) returns (ip: string)
    requires IsOctetDraws(octets)
    ensures ip == DottedQuad(octets)
  {
    ghost var texts := OctetTexts(octets);
    ip := "";
    for i := 1 to 5
      invariant i == 1 ==> ip == ""
      invariant 1 < i ==> ip == Join(texts[..i - 1], '.') + (if i < 5 then "." else "")
    {
      ip := ip + NatToStr(octets[i - 1]);
      assert texts[..i][..i - 1] == texts[..i - 1];
      if i < 4 {
        ip := ip + ".";
      }
    }
    assert texts[..4] == texts;
  }

  /** Text that `str` writes for an octet. */
  predicate IsOctetText(s: string) {
    IsCanonical(s) && StrToNat(s) <= 255
  }

  /** Reads a dotted quad back: four '.'-separated octet texts, or nothing. */
  function ParseDottedQuad(s: string): Option<seq<int>> {
    var parts := Split(s, '.');
    if |parts| == 4 && IsOctetText(parts[0]) && IsOctetText(parts[1])
       && IsOctetText(parts[2]) && IsOctetText(parts[3])
    then Some([StrToNat(parts[0]), StrToNat(parts[1]), StrToNat(parts[2]), StrToNat(parts[3])])
    else None
  }

  lemma OctetTextOf(n: int)
    requires IsOctet(n)
    ensures IsOctetText(NatToStr(n))
    ensures 1 <= |NatToStr(n)| <= 3
    ensures StrToNat(NatToStr(n)) == n
  {
    StrToNatOfNatToStr(n);
    NatToStrLength(n, 3);
  }

  lemma OctetTextsShape(octets: seq<int>)
    requires IsOctetDraws(octets)
    ensures var t := OctetTexts(octets);
      forall i :: 0 <= i < 4 ==> IsOctetText(t[i]) && 1 <= |t[i]| <= 3 && '.' !in t[i]
  {
    var t := OctetTexts(octets);
    forall i | 0 <= i < 4
      ensures IsOctetText(t[i]) && 1 <= |t[i]| <= 3 && '.' !in t[i]
    {
      OctetTextOf(octets[i]);
    }
  }

  /** The address written out as the source builds it. */
  lemma DottedQuadExpanded(octets: seq<int>)
    requires IsOctetDraws(octets)
    ensures var t := OctetTexts(octets);
      DottedQuad(octets) == t[0] + ['.'] + t[1] + ['.'] + t[2] + ['.'] + t[3]
  {
    var t := OctetTexts(octets);
    JoinFour(t[0], t[1], t[2], t[3], '.');
    assert t == [t[0], t[1], t[2], t[3]];
  }

  /** Splitting the address on '.' gives the four octet texts, and it holds exactly three dots. */
  lemma DottedQuadPieces(octets: seq<int>)
    requires IsOctetDraws(octets)
    ensures Split(DottedQuad(octets), '.') == OctetTexts(octets)
    ensures multiset(DottedQuad(octets))['.'] == 3
  {
    OctetTextsShape(octets);
    SplitJoin(OctetTexts(octets), '.');
    JoinSeparatorCount(OctetTexts(octets), '.');
  }

  /**
   * The address has no leading or trailing dot, holds nothing but digits and
   * dots, and is 7 to 15 characters long.
   */
  lemma DottedQuadShape(octets: seq<int>)
    requires IsOctetDraws(octets)
    ensures var ip := DottedQuad(octets);
      && ip[0] != '.' && ip[|ip| - 1] != '.'
      && (forall c :: c in ip ==> IsDigit(c) || c == '.')
      && 7 <= |ip| <= 15
  {
    var t := OctetTexts(octets);
    var ip := DottedQuad(octets);
    OctetTextsShape(octets);
    DottedQuadExpanded(octets);
    assert ip[0] == t[0][0];
    assert ip[|ip| - 1] == t[3][|t[3]| - 1];
    forall c | c in ip ensures IsDigit(c) || c == '.' {
      assert c in t[0] || c in t[1] || c in t[2] || c in t[3] || c == '.';
      if c in t[0] {
        assert IsDigits(t[0]);
      } else if c in t[1] {
        assert IsDigits(t[1]);
      } else if c in t[2] {
        assert IsDigits(t[2]);
      } else if c in t[3] {
        assert IsDigits(t[3]);
      }
    }
  }

  /** Reading the address back gives the four octets drawn. */
  lemma DottedQuadRoundTrip(octets: seq<int>)
    requires IsOctetDraws(octets)
    ensures ParseDottedQuad(DottedQuad(octets)) == Some(octets)
  {
    var t := OctetTexts(octets);
    OctetTextsShape(octets);
    DottedQuadPieces(octets);
    forall i | 0 <= i < 4 ensures StrToNat(t[i]) == octets[i] {
      OctetTextOf(octets[i]);
    }
    assert octets == [StrToNat(t[0]), StrToNat(t[1]), StrToNat(t[2]), StrToNat(t[3])];
  }

  /** Whatever reads as a dotted quad is exactly the address of the octets read. */
  lemma ParseDottedQuadSound(s: string, octets: seq<int>)
    requires ParseDottedQuad(s) == Some(octets)
    ensures IsOctetDraws(octets) && DottedQuad(octets) == s
  {
    var parts := Split(s, '.');
    forall i | 0 <= i < 4 ensures NatToStr(StrToNat(parts[i])) == parts[i] {
      NatToStrOfStrToNat(parts[i]);
    }
    assert OctetTexts(octets) == parts;
    JoinSplit(s, '.');
  }

  // ---------------------------------------------------------------------------
  // User id: `str(randint(1, max_count))`.

  const DefaultMaxCount := 100000000

  /** gen_user_id: the draw's decimal text, whose value lies in [1, max_count]. */
  function UserId(maxCount: int, draw: int): (id: string)
    requires 1 <= draw <= maxCount
    ensures IsCanonical(id)
    ensures StrToNat(id) == draw
    ensures 1 <= StrToNat(id) <= maxCount
  {
    StrToNatOfNatToStr(draw);
    NatToStr(draw)
  }

  // ---------------------------------------------------------------------------
  // Order id: `size` choices from `string.ascii_uppercase + string.digits`.

  const DefaultOrderIdSize := 6

  const Uppercase: string := "ABCDEFGHIJKLMNOPQRSTUVWXYZ"
  const Digits: string := "0123456789"
  const OrderAlphabet: string := Uppercase + Digits

  predicate IsOrderChar(c: char) {
    'A' <= c <= 'Z' || '0' <= c <= '9'
  }

  /** Where a character stands in the order-id alphabet. */
  function ChoiceOf(c: char): int
    requires IsOrderChar(c)
  {
    if 'A' <= c <= 'Z' then c as int - 'A' as int else c as int - '0' as int + 26
  }

  /** The alphabet is A-Z then 0-9: 36 symbols, each at the position ChoiceOf gives it. */
  lemma OrderAlphabetLayout()
    ensures |OrderAlphabet| == 36
    ensures forall k :: 0 <= k < 36 ==> IsOrderChar(OrderAlphabet[k]) && ChoiceOf(OrderAlphabet[k]) == k
    ensures forall c :: IsOrderChar(c) ==> 0 <= ChoiceOf(c) < 36 && OrderAlphabet[ChoiceOf(c)] == c
  {
  }

  predicate IsChoiceDraws(size: nat, choices: seq<int>) {
    |choices| == size && forall i :: 0 <= i < size ==> 0 <= choices[i] < 36
  }

  /** gen_order_id: `size` symbols from A-Z and 0-9. */
  function OrderId(size: nat, choices: seq<int>): (id: string)
    requires IsChoiceDraws(size, choices)
    ensures |id| == size
    ensures forall i :: 0 <= i < size ==> IsOrderChar(id[i])
    ensures size == 0 ==> id == []
  {
    OrderAlphabetLayout();
    seq(size, i requires 0 <= i < size => OrderAlphabet[choices[i]])
  }

  /** The choices can be read back from the id: distinct draws give distinct ids. */
  lemma OrderIdChoices(size: nat, choices: seq<int>)
    requires IsChoiceDraws(size, choices)
    ensures forall i :: 0 <= i < size ==> ChoiceOf(OrderId(size, choices)[i]) == choices[i]
  {
    OrderAlphabetLayout();
  }

  // ---------------------------------------------------------------------------
  // Masked card number: a zero-padded `randint(1, 9999)` after one of two masks,
  // picked by the parity of `randint(1, 100)`.

  const Mask16: string := "****-****-****-"
  const Mask15: string := "****-******-*"

  predicate IsMaskChar(c: char) {
    c == '*' || c == '-'
  }

  /** `s` is `mask` followed by four digits. */
  predicate MatchesTemplate(s: string, mask: string) {
    |s| == |mask| + 4 && s[..|mask|] == mask && IsDigits(s[|mask|..])
  }

  /** `str(draw).zfill(4)`: four digits whose value is the draw. */
  function LastFour(draw: int): (tail: string)
    requires 1 <= draw <= 9999
    ensures |tail| == 4 && IsDigits(tail)
    ensures StrToNat(tail) == draw
  {
    ZFillOfNatToStr(draw, 4);
    ZFill(NatToStr(draw), 4)
  }

  /**
   * gen_cc_number_masked: an even parity draw gives the 16-digit mask, an odd
   * one the 15-digit mask; the last four characters are the padded draw, and
   * everything before them is '*' or '-'.
   */
  function CcNumberMasked(lastDraw: int, kindDraw: int): (cc: string)
    requires 1 <= lastDraw <= 9999
    requires 1 <= kindDraw <= 100
    ensures MatchesTemplate(cc, Mask16) <==> kindDraw % 2 == 0
    ensures MatchesTemplate(cc, Mask15) <==> kindDraw % 2 != 0
    ensures |cc| == if kindDraw % 2 == 0 then 19 else 17
    ensures IsDigits(cc[|cc| - 4..]) && StrToNat(cc[|cc| - 4..]) == lastDraw
    ensures forall i :: 0 <= i < |cc| - 4 ==> IsMaskChar(cc[i])
  {
    var lastFour := LastFour(lastDraw);
    var cc := if kindDraw % 2 == 0 then Mask16 + lastFour else Mask15 + lastFour;
    assert cc[|cc| - 4..] == lastFour;
    cc
  }
}
