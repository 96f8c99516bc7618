/**
 * The records of the emulator (a captured tag and a saved card), the hex
 * rendering of byte arrays, the technology-name classifier and the
 * parcel write/read pair that rebuilds a captured tag.
 */
module NfcData {
  import opened Wrappers
  import opened Encoding

  // ---------------------------------------------------------------------
  // Records
  // ---------------------------------------------------------------------

  /** One key/value pair of a captured tag's `data` map. */
  datatype Entry = Entry(key: string, value: Bytes)

  /**
   * A captured tag. `data` is a Kotlin `Map` built by `mutableMapOf` (a
   * LinkedHashMap), so its entries keep insertion order; the responders
   * index its values by position.
   */
  datatype NFCData = NFCData(id: string, techList: seq<string>, data: seq<Entry>, timestamp: int)

  /** A card the user saved: its own id and label, and the captured tag. */
  datatype NFCCard = NFCCard(id: string, name: string, data: NFCData, isEmulating: bool)

  function Keys(entries: seq<Entry>): (ks: seq<string>)
    ensures |ks| == |entries|
    ensures forall i :: 0 <= i < |entries| ==> ks[i] == entries[i].key
  {
    seq(|entries|, i requires 0 <= i < |entries| => entries[i].key)
  }

  function Values(entries: seq<Entry>): (vs: seq<Bytes>)
    ensures |vs| == |entries|
    ensures forall i :: 0 <= i < |entries| ==> vs[i] == entries[i].value
  {
    seq(|entries|, i requires 0 <= i < |entries| => entries[i].value)
  }

  /** A map has each key once. */
  ghost predicate DistinctKeys(entries: seq<Entry>) {
    forall i, j :: 0 <= i < j < |entries| ==> entries[i].key != entries[j].key
  }

  /** Every `NFCData` the program builds has a real map as its `data`. */
  ghost predicate WellFormed(d: NFCData) {
    DistinctKeys(d.data)
  }

  // ---------------------------------------------------------------------
  // byteArrayToHex: each byte as "%02x", joined without separator
  // ---------------------------------------------------------------------

  predicate IsLowerHexDigit(c: char) {
    '0' <= c <= '9' || 'a' <= c <= 'f'
  }

  function HexDigit(n: int): (c: char)
    requires 0 <= n < 16
    ensures IsLowerHexDigit(c)
  {
    if n < 10 then ('0' as int + n) as char else ('a' as int + n - 10) as char
  }

  /** `"%02x".format(b)`: a Byte is printed as its unsigned value. */
  function ByteHex(b: Byte): (s: string)
    ensures |s| == 2
  {
    [HexDigit(b as int / 16), HexDigit(b as int % 16)]
  }

  function ByteArrayToHex(bytes: Bytes): (s: string)
    ensures |s| == 2 * |bytes|
    ensures forall i :: 0 <= i < |s| ==> IsLowerHexDigit(s[i])
  {
    if |bytes| == 0 then "" else ByteHex(bytes[0]) + ByteArrayToHex(bytes[1..])
  }

  lemma ByteHexInjective(a: Byte, b: Byte)
    ensures ByteHex(a) == ByteHex(b) ==> a == b
  {
    if ByteHex(a) == ByteHex(b) {
      assert HexDigit(a as int / 16) == HexDigit(b as int / 16);
      assert HexDigit(a as int % 16) == HexDigit(b as int % 16);
    }
  }

  /** The rendering is per byte: hex(a ++ b) == hex(a) + hex(b). */
  lemma {:induction false} HexConcat(a: Bytes, b: Bytes)
    ensures ByteArrayToHex(a + b) == ByteArrayToHex(a) + ByteArrayToHex(b)
  {
    if |a| == 0 {
      assert a + b == b;
    } else {
      assert (a + b)[1..] == a[1..] + b;
      HexConcat(a[1..], b);
    }
  }

  /** Distinct byte arrays have distinct renderings. */
  lemma {:induction false} HexInjective(a: Bytes, b: Bytes)
    requires ByteArrayToHex(a) == ByteArrayToHex(b)
    ensures a == b
  {
    if |a| != 0 {
      var ha, hb := ByteArrayToHex(a), ByteArrayToHex(b);
      assert ha[..2] == ByteHex(a[0]) && hb[..2] == ByteHex(b[0]);
      ByteHexInjective(a[0], b[0]);
      assert ha[2..] == ByteArrayToHex(a[1..]) && hb[2..] == ByteArrayToHex(b[1..]);
      HexInjective(a[1..], b[1..]);
      assert a == [a[0]] + a[1..] && b == [b[0]] + b[1..];
    }
  }

  /** The first 2k characters of the rendering render the first k bytes. */
  lemma HexPrefix(bytes: Bytes, k: nat)
    requires k <= |bytes|
    ensures ByteArrayToHex(bytes)[..2 * k] == ByteArrayToHex(bytes[..k])
  {
    assert bytes == bytes[..k] + bytes[k..];
    HexConcat(bytes[..k], bytes[k..]);
  }

  /**
   * A case-sensitive prefix test on the rendering of `bytes` succeeds for the
   * rendering of `p` exactly when `bytes` starts with `p`.
   */
  lemma HexStartsWith(bytes: Bytes, p: Bytes)
    ensures StartsWith(ByteArrayToHex(bytes), ByteArrayToHex(p))
        <==> |p| <= |bytes| && bytes[..|p|] == p
  {
    if |p| <= |bytes| {
      HexPrefix(bytes, |p|);
      if ByteArrayToHex(bytes[..|p|]) == ByteArrayToHex(p) {
        HexInjective(bytes[..|p|], p);
      }
    }
  }

  /** No prefix holding a character other than 0-9 and a-f ever matches. */
  lemma HexNeverStartsWithUpper(bytes: Bytes, prefix: string, i: nat)
    requires i < |prefix| && !IsLowerHexDigit(prefix[i])
    ensures !StartsWith(ByteArrayToHex(bytes), prefix)
  {
  }

  // ---------------------------------------------------------------------
  // Upper-case renderings, against which the program compares without case
  // ---------------------------------------------------------------------

  function UpperHexDigit(n: int): (c: char)
    requires 0 <= n < 16
  {
    if n < 10 then ('0' as int + n) as char else ('A' as int + n - 10) as char
  }

  /** The rendering with "%02X", in which the supported AIDs are written. */
  function UpperHex(bytes: Bytes): (s: string)
    ensures |s| == 2 * |bytes|
  {
    seq(2 * |bytes|, i requires 0 <= i < 2 * |bytes| =>
      if i % 2 == 0 then UpperHexDigit(bytes[i / 2] as int / 16) else UpperHexDigit(bytes[i / 2] as int % 16))
  }

  /** Characters 2k and 2k+1 of the rendering are the digits of byte k. */
  lemma {:induction false} HexAt(bytes: Bytes, k: nat)
    requires k < |bytes|
    ensures ByteArrayToHex(bytes)[2 * k] == HexDigit(bytes[k] as int / 16)
    ensures ByteArrayToHex(bytes)[2 * k + 1] == HexDigit(bytes[k] as int % 16)
  {
    if k > 0 {
      HexAt(bytes[1..], k - 1);
    }
  }

  lemma DigitsMatchIgnoringCase(m: int, n: int)
    requires 0 <= m < 16 && 0 <= n < 16
    ensures LowerAscii(HexDigit(m)) == LowerAscii(UpperHexDigit(n)) <==> m == n
  {
  }

  lemma HexMatchingUpperIgnoringCaseIsEqual(a: Bytes, b: Bytes)
    requires EqualsIgnoreCase(ByteArrayToHex(a), UpperHex(b))
    ensures a == b
  {
    var ha, hb := ByteArrayToHex(a), UpperHex(b);
    forall k | 0 <= k < |a| ensures a[k] == b[k] {
      HexAt(a, k);
      UpperHexAt(b, k);
      assert LowerAscii(ha[2 * k]) == LowerAscii(hb[2 * k]);
      assert LowerAscii(ha[2 * k + 1]) == LowerAscii(hb[2 * k + 1]);
      DigitsMatchIgnoringCase(a[k] as int / 16, b[k] as int / 16);
      DigitsMatchIgnoringCase(a[k] as int % 16, b[k] as int % 16);
    }
  }

  /** Characters 2k and 2k+1 of the upper-case rendering are the digits of byte k. */
  lemma UpperHexAt(bytes: Bytes, k: nat)
    requires k < |bytes|
    ensures UpperHex(bytes)[2 * k] == UpperHexDigit(bytes[k] as int / 16)
    ensures UpperHex(bytes)[2 * k + 1] == UpperHexDigit(bytes[k] as int % 16)
  {
    var even, odd := 2 * k, 2 * k + 1;
    assert even / 2 == k && even % 2 == 0;
    assert odd / 2 == k && odd % 2 == 1;
  }

  /** Lower-casing an upper-case digit gives the lower-case digit. */
  lemma LowerOfUpperDigit(n: int)
    requires 0 <= n < 16
    ensures LowerAscii(UpperHexDigit(n)) == LowerAscii(HexDigit(n))
  {
  }

  /** Both digits of byte k agree between the two renderings, ignoring case. */
  lemma HexPairMatchesUpper(a: Bytes, k: nat)
    requires k < |a|
    ensures LowerAscii(ByteArrayToHex(a)[2 * k]) == LowerAscii(UpperHex(a)[2 * k])
    ensures LowerAscii(ByteArrayToHex(a)[2 * k + 1]) == LowerAscii(UpperHex(a)[2 * k + 1])
  {
    HexAt(a, k);
    UpperHexAt(a, k);
    LowerOfUpperDigit(a[k] as int / 16);
    LowerOfUpperDigit(a[k] as int % 16);
  }

  lemma HexMatchesOwnUpperIgnoringCase(a: Bytes)
    ensures EqualsIgnoreCase(ByteArrayToHex(a), UpperHex(a))
  {
    var ha, hb := ByteArrayToHex(a), UpperHex(a);
    forall i | 0 <= i < |ha| ensures LowerAscii(ha[i]) == LowerAscii(hb[i]) {
      var k := i / 2;
      HexPairMatchesUpper(a, k);
      assert i == 2 * k || i == 2 * k + 1;
    }
  }

  /**
   * The lower-case rendering of `a` equals the upper-case rendering of `b`,
   * ignoring case, exactly when `a == b`.
   */
  lemma HexEqualsUpperIgnoringCase(a: Bytes, b: Bytes)
    ensures EqualsIgnoreCase(ByteArrayToHex(a), UpperHex(b)) <==> a == b
  {
    if EqualsIgnoreCase(ByteArrayToHex(a), UpperHex(b)) {
      HexMatchingUpperIgnoringCaseIsEqual(a, b);
    }
    if a == b {
      HexMatchesOwnUpperIgnoringCase(a);
    }
  }

  /** The first 2k characters of the upper-case rendering render the first k bytes. */
  lemma UpperHexPrefix(bytes: Bytes, k: nat)
    requires k <= |bytes|
    ensures UpperHex(bytes)[..2 * k] == UpperHex(bytes[..k])
  {
  }

  lemma UpperHexInjective(a: Bytes, b: Bytes)
    requires UpperHex(a) == UpperHex(b)
    ensures a == b
  {
    var ha, hb := UpperHex(a), UpperHex(b);
    forall k | 0 <= k < |a| ensures a[k] == b[k] {
      UpperHexAt(a, k);
      UpperHexAt(b, k);
      assert ha[2 * k] == hb[2 * k] && ha[2 * k + 1] == hb[2 * k + 1];
    }
  }

  /**
   * A case-sensitive prefix test on the upper-case rendering of `bytes`
   * succeeds for the upper-case rendering of `p` exactly when `bytes` starts with `p`.
   */
  lemma UpperHexStartsWith(bytes: Bytes, p: Bytes)
    ensures StartsWith(UpperHex(bytes), UpperHex(p)) <==> |p| <= |bytes| && bytes[..|p|] == p
  {
    if |p| <= |bytes| {
      UpperHexPrefix(bytes, |p|);
      if UpperHex(bytes[..|p|]) == UpperHex(p) {
        UpperHexInjective(bytes[..|p|], p);
      }
    }
  }

  // ---------------------------------------------------------------------
  // NFCTechHelper: technology class names, their enum and display names
  // ---------------------------------------------------------------------

  datatype NFCTechType =
    | MifareClassic | MifareUltralight | Ndef | IsoDep
    | NfcA | NfcB | NfcF | NfcV | Unknown

  /** The Java class name of each android.nfc.tech technology. */
  function TechClassName(t: NFCTechType): (name: string)
    requires t != Unknown
  {
    match t
    case MifareClassic => "android.nfc.tech.MifareClassic"
    case MifareUltralight => "android.nfc.tech.MifareUltralight"
    case Ndef => "android.nfc.tech.Ndef"
    case IsoDep => "android.nfc.tech.IsoDep"
    case NfcA => "android.nfc.tech.NfcA"
    case NfcB => "android.nfc.tech.NfcB"
    case NfcF => "android.nfc.tech.NfcF"
    case NfcV => "android.nfc.tech.NfcV"
  }

  /** `NFCTechHelper.getTechType`. */
  function GetTechType(tech: string): (t: NFCTechType)
    ensures t != Unknown ==> tech == TechClassName(t)
  {
    if tech == "android.nfc.tech.MifareClassic" then MifareClassic
    else if tech == "android.nfc.tech.MifareUltralight" then MifareUltralight
    else if tech == "android.nfc.tech.Ndef" then Ndef
    else if tech == "android.nfc.tech.IsoDep" then IsoDep
    else if tech == "android.nfc.tech.NfcA" then NfcA
    else if tech == "android.nfc.tech.NfcB" then NfcB
    else if tech == "android.nfc.tech.NfcF" then NfcF
    else if tech == "android.nfc.tech.NfcV" then NfcV
    else Unknown
  }

  /**
   * The classifier and the class names are inverse: each known technology's
   * class name classifies as that technology, and a string classifies as a
   * known technology only if it is that technology's class name.
   */
  lemma TechTypeClassifiesClassNames(tech: string, t: NFCTechType)
    ensures t != Unknown ==> GetTechType(TechClassName(t)) == t
    ensures GetTechType(tech) != Unknown ==> TechClassName(GetTechType(tech)) == tech
    ensures GetTechType(tech) == Unknown <==>
      forall u: NFCTechType :: u != Unknown ==> tech != TechClassName(u)
  {
  }

  function DisplayNameOf(t: NFCTechType): string {
    match t
    case MifareClassic => "Mifare Classic"
    case MifareUltralight => "Mifare Ultralight"
    case Ndef => "NDEF"
    case IsoDep => "ISO-DEP"
    case NfcA => "NFC-A"
    case NfcB => "NFC-B"
    case NfcF => "NFC-F"
    case NfcV => "NFC-V"
    case Unknown => "Unknown"
  }

  /** `NFCTechHelper.getTechDisplayName`. */
  function GetTechDisplayName(tech: string): string {
    DisplayNameOf(GetTechType(tech))
  }

  /**
   * "Unknown" is shown exactly for unclassified strings, and strings of two
   * different technologies are shown under different names.
   */
  lemma DisplayNamesDistinguishTechnologies(a: string, b: string)
    ensures GetTechDisplayName(a) == "Unknown" <==> GetTechType(a) == Unknown
    ensures GetTechDisplayName(a) == GetTechDisplayName(b) <==> GetTechType(a) == GetTechType(b)
  {
  }

  // ---------------------------------------------------------------------
  // Parcels: NFCData and NFCCard written and read back
  // ---------------------------------------------------------------------

  /**
   * The fields an NFCData writes to a parcel, in order. A string or list field
   * read back may be null; the value list is read into an empty list.
   */
  datatype DataParcel = DataParcel(
    id: Option<string>,
    techList: Option<seq<string>>,
    keys: Option<seq<string>>,
    values: seq<Bytes>,
    timestamp: int)

  /** `NFCData.writeToParcel`. */
  function WriteDataParcel(d: NFCData): (p: DataParcel)
    ensures p.keys.Some? && |p.keys.value| == |p.values| == |d.data|
  {
    DataParcel(Some(d.id), Some(d.techList), Some(Keys(d.data)), Values(d.data), d.timestamp)
  }

  /** The position of key `k` in `m`, or -1. */
  function IndexOfKey(m: seq<Entry>, k: string): (i: int)
    ensures -1 <= i < |m|
    ensures i >= 0 ==> m[i].key == k
    ensures i < 0 <==> forall j :: 0 <= j < |m| ==> m[j].key != k
  {
    if |m| == 0 then -1
    else if m[0].key == k then 0
    else
      var j := IndexOfKey(m[1..], k);
      if j < 0 then -1 else j + 1
  }

  /**
   * `MutableMap.put` on a LinkedHashMap: a new key goes last, a present key
   * keeps its position and takes the new value.
   */
  function Put(m: seq<Entry>, k: string, v: Bytes): (r: seq<Entry>)
  {
    var i := IndexOfKey(m, k);
    if i < 0 then m + [Entry(k, v)] else m[i := Entry(k, v)]
  }

  function Min(a: int, b: int): int {
    if a <= b then a else b
  }

  lemma PutNewKey(m: seq<Entry>, k: string, v: Bytes)
    requires forall j :: 0 <= j < |m| ==> m[j].key != k
    ensures Put(m, k, v) == m + [Entry(k, v)]
  {
  }

  /** The map after putting the first `n` key/value pairs in order. */
  function PutPairs(keys: seq<string>, values: seq<Bytes>, n: nat): seq<Entry>
    requires n <= |keys| && n <= |values|
  {
    if n == 0 then [] else Put(PutPairs(keys, values, n - 1), keys[n - 1], values[n - 1])
  }

  /** `keys[i]` is paired with `values[i]` while both lists have an element. */
  function Paired(keys: seq<string>, values: seq<Bytes>): seq<Entry> {
    PutPairs(keys, values, Min(|keys|, |values|))
  }

  /**
   * The `forEachIndexed` loop of the NFCData parcel constructor:
   * `if (index < values.size) put(key, values[index])`.
   */
  method PairKeysWithValues(keys: seq<string>, values: seq<Bytes>) returns (m: seq<Entry>)
    ensures m == Paired(keys, values)
  {
    m := [];
    var i := 0;
    while i < |keys|
      invariant 0 <= i <= |keys|
      invariant m == PutPairs(keys, values, Min(i, |values|))
    {
      if i < |values| {
        m := Put(m, keys[i], values[i]);
      }
      i := i + 1;
    }
  }

  /** The NFCData parcel constructor. */
  function ReadDataParcel(p: DataParcel): (d: NFCData)
    ensures WellFormed(d)
  {
    PairedSpec(p.keys.GetOr([]), p.values);
    NFCData(p.id.GetOr(""), p.techList.GetOr([]), Paired(p.keys.GetOr([]), p.values), p.timestamp)
  }

  lemma {:induction false} PutKeepsKeysDistinct(m: seq<Entry>, k: string, v: Bytes)
    requires DistinctKeys(m)
    ensures DistinctKeys(Put(m, k, v))
  {
    var r := Put(m, k, v);
    var at := IndexOfKey(m, k);
    forall i, j | 0 <= i < j < |r| ensures r[i].key != r[j].key {
      if at < 0 {
        assert r == m + [Entry(k, v)];
      } else {
        assert r[i].key == m[i].key && r[j].key == m[j].key;
      }
    }
  }

  lemma {:induction false} PutPairsDistinct(keys: seq<string>, values: seq<Bytes>, n: nat)
    requires n <= |keys| && n <= |values|
    ensures DistinctKeys(PutPairs(keys, values, n))
  {
    if n > 0 {
      PutPairsDistinct(keys, values, n - 1);
      PutKeepsKeysDistinct(PutPairs(keys, values, n - 1), keys[n - 1], values[n - 1]);
    }
  }

  /** Every entry is the pair of some index below both list sizes. */
  lemma {:induction false} PutPairsFromPairs(keys: seq<string>, values: seq<Bytes>, n: nat)
    requires n <= |keys| && n <= |values|
    ensures forall e :: e in PutPairs(keys, values, n) ==>
      exists i :: 0 <= i < n && e == Entry(keys[i], values[i])
  {
    if n > 0 {
      PutPairsFromPairs(keys, values, n - 1);
      var m := PutPairs(keys, values, n - 1);
      var r := Put(m, keys[n - 1], values[n - 1]);
      forall e | e in r
        ensures exists i :: 0 <= i < n && e == Entry(keys[i], values[i])
      {
        if e != Entry(keys[n - 1], values[n - 1]) {
          assert e in m;
        }
      }
    }
  }

  /** A key not among the first n - 1 pairs is appended by the n-th put. */
  lemma PutPairsAppends(keys: seq<string>, values: seq<Bytes>, n: nat)
    requires 0 < n <= |keys| && n <= |values|
    requires forall i, j :: 0 <= i < j < |keys| ==> keys[i] != keys[j]
    requires |PutPairs(keys, values, n - 1)| == n - 1
    requires forall i :: 0 <= i < n - 1 ==> PutPairs(keys, values, n - 1)[i] == Entry(keys[i], values[i])
    ensures PutPairs(keys, values, n) == PutPairs(keys, values, n - 1) + [Entry(keys[n - 1], values[n - 1])]
  {
    var m := PutPairs(keys, values, n - 1);
    forall j | 0 <= j < |m| ensures m[j].key != keys[n - 1] {
      assert m[j] == Entry(keys[j], values[j]);
    }
    PutNewKey(m, keys[n - 1], values[n - 1]);
  }

  /** With distinct keys, putting the first n pairs yields exactly those pairs, in order. */
  lemma {:induction false} PutPairsOfDistinctKeys(keys: seq<string>, values: seq<Bytes>, n: nat)
    requires n <= |keys| && n <= |values|
    requires forall i, j :: 0 <= i < j < |keys| ==> keys[i] != keys[j]
    ensures |PutPairs(keys, values, n)| == n
    ensures forall i :: 0 <= i < n ==> PutPairs(keys, values, n)[i] == Entry(keys[i], values[i])
  {
    if n > 0 {
      PutPairsOfDistinctKeys(keys, values, n - 1);
      PutPairsAppends(keys, values, n);
      var m, r := PutPairs(keys, values, n - 1), PutPairs(keys, values, n);
      forall i | 0 <= i < n ensures r[i] == Entry(keys[i], values[i]) {
        if i < n - 1 {
          assert r[i] == m[i];
        }
      }
    }
  }

  /**
   * Rebuilding pairs `keys[i]` with `values[i]` for every `i` below both
   * sizes and drops surplus keys or values; the result is always a map
   * (distinct keys), and with distinct keys it holds exactly those pairs.
   */
  lemma PairedSpec(keys: seq<string>, values: seq<Bytes>)
    ensures DistinctKeys(Paired(keys, values))
    ensures forall e :: e in Paired(keys, values) ==>
      exists i :: 0 <= i < |keys| && i < |values| && e == Entry(keys[i], values[i])
    ensures (forall i, j :: 0 <= i < j < |keys| ==> keys[i] != keys[j]) ==>
      |Paired(keys, values)| == Min(|keys|, |values|) &&
      forall i :: 0 <= i < Min(|keys|, |values|) ==> Paired(keys, values)[i] == Entry(keys[i], values[i])
  {
    var n := Min(|keys|, |values|);
    PutPairsDistinct(keys, values, n);
    PutPairsFromPairs(keys, values, n);
    if forall i, j :: 0 <= i < j < |keys| ==> keys[i] != keys[j] {
      PutPairsOfDistinctKeys(keys, values, n);
    }
  }

  /** Writing an NFCData and reading it back preserves id, technologies, timestamp and the ordered map. */
  lemma DataParcelRoundTrip(d: NFCData)
    requires WellFormed(d)
    ensures ReadDataParcel(WriteDataParcel(d)) == d
  {
    var keys, values := Keys(d.data), Values(d.data);
    PutPairsOfDistinctKeys(keys, values, |d.data|);
    assert Paired(keys, values) == d.data;
  }

  /** The fields an NFCCard writes to a parcel; the nested record may read back as null. */
  datatype CardParcel = CardParcel(
    id: Option<string>,
    name: Option<string>,
    data: Option<DataParcel>,
    emulating: int)

  /** `NFCCard.writeToParcel`. */
  function WriteCardParcel(c: NFCCard): CardParcel {
    CardParcel(Some(c.id), Some(c.name), Some(WriteDataParcel(c.data)), if c.isEmulating then 1 else 0)
  }

  /**
   * The NFCCard parcel constructor. A missing record becomes an empty
   * NFCData whose default timestamp is the clock reading `now`.
   */
  function ReadCardParcel(p: CardParcel, now: int): (c: NFCCard)
    ensures c.isEmulating <==> p.emulating == 1
    ensures p.data.None? ==> c.data == NFCData("", [], [], now)
    ensures p.data.Some? ==> c.data == ReadDataParcel(p.data.value)
  {
    NFCCard(
      p.id.GetOr(""),
      p.name.GetOr(""),
      match p.data
      case Some(dp) => ReadDataParcel(dp)
      case None => NFCData("", [], [], now),
      p.emulating == 1)
  }

  /** Writing a card and reading it back gives the same card, whatever the clock says. */
  lemma CardParcelRoundTrip(c: NFCCard, now: int)
    requires WellFormed(c.data)
    ensures ReadCardParcel(WriteCardParcel(c), now) == c
  {
    DataParcelRoundTrip(c.data);
  }
}
