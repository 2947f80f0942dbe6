/** Names that are compared without regard to case. */
module Names {
  function FoldChar(c: char): char { if 'A' <= c <= 'Z' then c - 'A' + 'a' else c }

  /** The key under which a case-insensitive map keeps a name. */
  function Fold(name: string): (key: string)
    ensures |key| == |name|
  {
    seq(|name|, i requires 0 <= i < |name| => FoldChar(name[i]))
  }

  /** The codes of large letters, 65 to 90, become those of the small ones, 97 to 122. */
  lemma FoldCodes(c: char)
    ensures FoldChar(c) as int == if 65 <= c as int <= 90 then c as int + 32 else c as int
  {
    assert 'A' as int == 65 && 'Z' as int == 90 && 'a' as int == 97;
  }

  ghost predicate DistinctIgnoringCase(names: seq<string>) {
    forall i, j | 0 <= i < j < |names| :: Fold(names[i]) != Fold(names[j])
  }

  /** The decimal digits of a number. */
  function ToString(n: nat): (s: string)
    ensures s != []
  {
    (if n >= 10 then ToString(n / 10) else []) + [(n % 10) as char + '0']
  }

  predicate IsDigit(c: char) { '0' <= c <= '9' }

  predicate AreDigits(s: string) { forall i | 0 <= i < |s| :: IsDigit(s[i]) }

  /** The number that digits stand for behind those read before. */
  function Number(value: nat, digits: string): nat
    requires AreDigits(digits)
    decreases |digits|
  {
    if digits == [] then value else Number(value * 10 + (digits[0] as int - '0' as int), digits[1..])
  }

  lemma {:induction false} NumberSnoc(value: nat, digits: string, c: char)
    requires IsDigit(c) && AreDigits(digits)
    ensures Number(value, digits + [c]) == Number(value, digits) * 10 + (c as int - '0' as int)
    decreases |digits|
  {
    var all := digits + [c];
    if digits == [] {
      assert all == [c] && [c][1..] == [];
    } else {
      assert all[1..] == digits[1..] + [c];
      NumberSnoc(value * 10 + (digits[0] as int - '0' as int), digits[1..], c);
    }
  }

  /** The digits of a number stand for it, without a zero in front. */
  lemma {:induction false} ToStringReads(n: nat)
    ensures AreDigits(ToString(n)) && Number(0, ToString(n)) == n
    ensures n > 0 ==> ToString(n)[0] != '0'
  {
    var last := (n % 10) as char + '0';
    if n >= 10 {
      ToStringReads(n / 10);
      NumberSnoc(0, ToString(n / 10), last);
    } else {
      NumberSnoc(0, [], last);
      assert ToString(n) == [] + [last];
    }
  }

  lemma ToStringDiffers(m: nat, n: nat)
    requires ToString(m) == ToString(n)
    ensures m == n
  {
    ToStringReads(m);
    ToStringReads(n);
  }
}
