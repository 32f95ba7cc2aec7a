/** How every list screen names a new record: the prefix, then one more than
    the largest number found in the existing ids, written in decimal and
    left-padded with zeros to a minimum width (`String(n).padStart(w, '0')`).
    The existing numbers are read the way `parseInt(id.substring(k))` reads
    them, for ids whose part after the prefix is a non-empty run of decimal
    digits: the only ids the screens themselves produce. */
module RecordIds {
  import opened Seqs

  predicate IsDigit(c: char) {
    '0' <= c <= '9'
  }

  predicate AllDigits(s: string) {
    forall i :: 0 <= i < |s| ==> IsDigit(s[i])
  }

  function DigitChar(d: nat): (c: char)
    requires d < 10
    ensures IsDigit(c)
  {
    (48 + d) as char
  }

  function DigitValue(c: char): nat
    requires IsDigit(c)
  {
    c as int - 48
  }

  /** The value of a run of decimal digits, most significant first. */
  function DigitsValue(ds: string): nat
    requires AllDigits(ds)
  {
    if ds == [] then 0 else 10 * DigitsValue(ds[..|ds| - 1]) + DigitValue(ds[|ds| - 1])
  }

  /** `String(n)` for a natural number: its decimal digits, no leading zero. */
  function Decimal(n: nat): (ds: string)
    ensures ds != [] && AllDigits(ds)
    ensures DigitsValue(ds) == n
  {
    if n < 10 then
      [DigitChar(n)]
    else
      var ds := Decimal(n / 10) + [DigitChar(n % 10)];
      assert ds[..|ds| - 1] == Decimal(n / 10);
      ds
  }

  function Zeros(k: nat): (z: string)
    ensures |z| == k && forall i :: 0 <= i < k ==> z[i] == '0'
  {
    seq(k, _ => '0')
  }

  /** `s.padStart(width, '0')`: zeros in front up to `width`, never truncated. */
  function PadStart(s: string, width: nat): (r: string)
    ensures |r| == if |s| < width then width else |s|
    ensures r[|r| - |s|..] == s
    ensures forall i :: 0 <= i < |r| - |s| ==> r[i] == '0'
  {
    if |s| < width then Zeros(width - |s|) + s else s
  }

  lemma {:induction false} ZerosValue(z: string)
    requires forall i :: 0 <= i < |z| ==> z[i] == '0'
    ensures AllDigits(z) && DigitsValue(z) == 0
  {
    if z != [] {
      ZerosValue(z[..|z| - 1]);
    }
  }

  /** Leading zeros do not change the value of a digit string. */
  lemma {:induction false} LeadingZerosValue(z: string, ds: string)
    requires forall i :: 0 <= i < |z| ==> z[i] == '0'
    requires AllDigits(ds)
    ensures AllDigits(z + ds) && DigitsValue(z + ds) == DigitsValue(ds)
  {
    if ds == [] {
      assert z + ds == z;
      ZerosValue(z);
    } else {
      var zs := z + ds;
      assert zs[..|zs| - 1] == z + ds[..|ds| - 1];
      LeadingZerosValue(z, ds[..|ds| - 1]);
    }
  }

  /** The longest run of decimal digits at the front of `s`. */
  function LeadingDigits(s: string): (r: string)
    ensures AllDigits(r) && StartsWith(s, r)
    ensures |r| < |s| ==> !IsDigit(s[|r|])
  {
    if s == [] || !IsDigit(s[0]) then [] else [s[0]] + LeadingDigits(s[1..])
  }

  /** The id carries a number after its first `skip` characters: the rest is
      a non-empty run of decimal digits (no sign, space, `0x` or trailing
      text), on which `parseInt` agrees with the decimal value. */
  predicate HasIdNumber(id: string, skip: nat) {
    skip < |id| && AllDigits(id[skip..])
  }

  /** `parseInt(id.substring(skip))` on an id that carries a number. */
  function IdNumber(id: string, skip: nat): nat
    requires HasIdNumber(id, skip)
  {
    DigitsValue(id[skip..])
  }

  /** On an id that carries a number, `parseInt`'s leading digit run is the
      whole suffix, so it reads exactly `IdNumber`. */
  lemma IdNumberReadsAllDigits(id: string, skip: nat)
    requires HasIdNumber(id, skip)
    ensures LeadingDigits(id[skip..]) == id[skip..]
    ensures IdNumber(id, skip) == DigitsValue(LeadingDigits(id[skip..]))
  {
  }

  predicate AllIdsNumbered(ids: seq<string>, skip: nat) {
    forall i :: 0 <= i < |ids| ==> HasIdNumber(ids[i], skip)
  }

  /** `Math.max(0, ...ids.map(id => parseInt(id.substring(skip))))`. */
  function MaxIdNumber(ids: seq<string>, skip: nat): (m: nat)
    requires AllIdsNumbered(ids, skip)
    ensures forall i :: 0 <= i < |ids| ==> IdNumber(ids[i], skip) <= m
    ensures m == 0 || exists i :: 0 <= i < |ids| && IdNumber(ids[i], skip) == m
  {
    if ids == [] then 0
    else
      var rest := MaxIdNumber(ids[1..], skip);
      var first := IdNumber(ids[0], skip);
      assert forall i :: 1 <= i < |ids| ==> ids[i] == ids[1..][i - 1];
      if first > rest then first else rest
  }

  /** The id `prefix + String(n).padStart(width, '0')`. */
  function FormatId(prefix: string, n: nat, width: nat): string {
    prefix + PadStart(Decimal(n), width)
  }

  /** Reading back a formatted id yields its number. */
  lemma FormatIdNumber(prefix: string, n: nat, width: nat)
    ensures HasIdNumber(FormatId(prefix, n, width), |prefix|)
    ensures AllDigits(FormatId(prefix, n, width)[|prefix|..])
    ensures IdNumber(FormatId(prefix, n, width), |prefix|) == n
  {
    var ds := Decimal(n);
    var padded := PadStart(ds, width);
    var z := padded[..|padded| - |ds|];
    assert padded == z + ds;
    LeadingZerosValue(z, ds);
    var id := FormatId(prefix, n, width);
    assert id[|prefix|..] == padded;
  }

  /** The id given to a new record: never one of the existing ids, carrying
      the number one above the largest existing one, and at least `width`
      digits long without ever cutting a digit off. */
  function NextId(ids: seq<string>, prefix: string, width: nat): (id: string)
    requires AllIdsNumbered(ids, |prefix|)
    ensures id !in ids
    ensures StartsWith(id, prefix) && AllDigits(id[|prefix|..])
    ensures HasIdNumber(id, |prefix|) && IdNumber(id, |prefix|) == MaxIdNumber(ids, |prefix|) + 1
    ensures |id| == |prefix| + (if |Decimal(MaxIdNumber(ids, |prefix|) + 1)| < width then width else |Decimal(MaxIdNumber(ids, |prefix|) + 1)|)
    ensures id[|id| - |Decimal(MaxIdNumber(ids, |prefix|) + 1)|..] == Decimal(MaxIdNumber(ids, |prefix|) + 1)
  {
    var n := MaxIdNumber(ids, |prefix|) + 1;
    FormatIdNumber(prefix, n, width);
    FormatId(prefix, n, width)
  }

  /** Every id produced by `NextId` is new, so appending it keeps the ids
      distinct. */
  lemma NextIdKeepsIdsDistinct(ids: seq<string>, prefix: string, width: nat)
    requires AllIdsNumbered(ids, |prefix|)
    requires NoDuplicates(ids)
    ensures NoDuplicates(ids + [NextId(ids, prefix, width)])
  {
    var id := NextId(ids, prefix, width);
    forall x ensures multiset(ids + [id])[x] <= 1 {
      assert multiset(ids + [id]) == multiset(ids) + multiset{id};
    }
  }
}
