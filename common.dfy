/**
 * Shared vocabulary of the ReZipDoc model: optional values and results,
 * bytes, the single-byte text view used for report output, the few
 * java.lang.String operations the core relies on, and the decimal and
 * hexadecimal renderings used in the textual report.
 */
module Common {

  datatype Option<+T> = None | Some(value: T)

  /** The failures the core can raise; each one aborts the operation that raised it. */
  datatype Error =
    | MalformedArchive       // a nested container could not be read
    | NestingTooDeep         // the model's recursion budget ran out
    | SerializerFailed       // the SAX serializer of the net report engine threw
    | InvalidMethod(code: int)            // ZipEntry.setMethod with an unknown code
    | InvalidManifestEntry(entry: string) // a manifest entry without ": "

  datatype Result<+T> = Ok(value: T) | Err(error: Error)

  newtype byte = x: int | 0 <= x < 256

  /** The 32-bit range of a CRC-32 value (CRC32.getValue()). */
  type uint32 = x: int | 0 <= x < 0x1_0000_0000

  // ---------------------------------------------------------------------
  // Bytes and single-byte text

  /** A character that fits in one byte. */
  predicate IsByteChar(c: char) {
    c as int < 256
  }

  predicate IsByteText(s: string) {
    forall i :: 0 <= i < |s| ==> IsByteChar(s[i])
  }

  /** All but the last element, and the last element, of a non-empty sequence. */
  function Init<T>(s: seq<T>): seq<T>
    requires |s| >= 1
  {
    s[..|s| - 1]
  }

  function Last<T>(s: seq<T>): T
    requires |s| >= 1
  {
    s[|s| - 1]
  }

  /** Bytes read as text, one character per byte. */
  function Latin1(bs: seq<byte>): (s: string)
    ensures |s| == |bs|
    ensures forall i :: 0 <= i < |bs| ==> s[i] as int == bs[i] as int
  {
    seq(|bs|, i requires 0 <= i < |bs| => (bs[i] as int) as char)
  }

  /** String.getBytes() for single-byte text. */
  function Ascii(s: string): (bs: seq<byte>)
    requires IsByteText(s)
    ensures |bs| == |s|
    ensures forall i :: 0 <= i < |s| ==> bs[i] as int == s[i] as int
  {
    seq(|s|, i requires 0 <= i < |s| => s[i] as int as byte)
  }

  lemma Latin1OfAscii(s: string)
    requires IsByteText(s)
    ensures Latin1(Ascii(s)) == s
  {
  }

  lemma Latin1Append(a: seq<byte>, b: seq<byte>)
    ensures Latin1(a + b) == Latin1(a) + Latin1(b)
  {
  }

  // ---------------------------------------------------------------------
  // java.lang.String operations

  predicate StartsWith<T(==)>(s: seq<T>, prefix: seq<T>) {
    |prefix| <= |s| && s[..|prefix|] == prefix
  }

  predicate EndsWith<T(==)>(s: seq<T>, suffix: seq<T>) {
    |suffix| <= |s| && s[|s| - |suffix|..] == suffix
  }

  /** Whether String.trim() strips the character: every code point up to U+0020. */
  predicate IsTrimmed(c: char) {
    c as int <= 0x20
  }

  /** The index of the first character trim keeps, scanning forward from i; |s| when there is none. */
  function TrimLow(s: string, i: nat): (k: nat)
    requires i <= |s|
    ensures i <= k <= |s|
    ensures forall m :: i <= m < k ==> IsTrimmed(s[m])
    ensures k < |s| ==> !IsTrimmed(s[k])
    decreases |s| - i
  {
    if i < |s| && IsTrimmed(s[i]) then TrimLow(s, i + 1) else i
  }

  /** One past the index of the last character trim keeps, scanning backward from j; 0 when there is none. */
  function TrimHigh(s: string, j: nat): (k: nat)
    requires j <= |s|
    ensures k <= j
    ensures forall m :: k <= m < j ==> IsTrimmed(s[m])
    ensures k > 0 ==> !IsTrimmed(s[k - 1])
  {
    if j > 0 && IsTrimmed(s[j - 1]) then TrimHigh(s, j - 1) else j
  }

  /** String.trim(): drops every leading and trailing character up to U+0020. */
  function Trim(s: string): string {
    var lo := TrimLow(s, 0);
    var hi := TrimHigh(s, |s|);
    if hi <= lo then [] else s[lo..hi]
  }

  /** Text that neither starts nor ends with a blank is left as it is. */
  lemma TrimKeeps(s: string)
    requires s == [] || (!IsTrimmed(s[0]) && !IsTrimmed(s[|s| - 1]))
    ensures Trim(s) == s
  {
  }

  /**
   * The trimmed text is a contiguous piece of the input that neither starts
   * nor ends with a blank, and what was cut off on either side is blank.
   */
  lemma TrimIsInfix(s: string)
    ensures Trim(s) == [] || (!IsTrimmed(Trim(s)[0]) && !IsTrimmed(Trim(s)[|Trim(s)| - 1]))
    ensures exists i, j :: (0 <= i <= j <= |s| && Trim(s) == s[i..j]
      && (forall k :: 0 <= k < i ==> IsTrimmed(s[k]))
      && (forall k :: j <= k < |s| ==> IsTrimmed(s[k])))
  {
    var lo := TrimLow(s, 0);
    var hi := TrimHigh(s, |s|);
    if hi <= lo {
      assert Trim(s) == s[lo..lo];
    } else {
      assert Trim(s) == s[lo..hi];
    }
  }

  /** Trimming twice is trimming once. */
  lemma TrimIdempotent(s: string)
    ensures Trim(Trim(s)) == Trim(s)
  {
    TrimIsInfix(s);
    TrimKeeps(Trim(s));
  }

  /** Character.toLowerCase restricted to ASCII letters. */
  function LowerChar(c: char): char {
    if 'A' <= c <= 'Z' then (c as int + 32) as char else c
  }

  function ToLower(s: string): (r: string)
    ensures |r| == |s|
    ensures forall i :: 0 <= i < |s| ==> r[i] == LowerChar(s[i])
  {
    seq(|s|, i requires 0 <= i < |s| => LowerChar(s[i]))
  }

  /** String.lastIndexOf(char): the last position holding c, or -1. */
  function LastIndexOf(s: string, c: char): (r: int)
    ensures -1 <= r < |s|
    ensures r >= 0 ==> s[r] == c
    ensures forall i :: r < i < |s| ==> s[i] != c
    ensures r == -1 <==> c !in s
  {
    if |s| == 0 then -1
    else if s[|s| - 1] == c then |s| - 1
    else LastIndexOf(s[..|s| - 1], c)
  }

  /** t occurs in s at position i. */
  predicate OccursAt(s: string, t: string, i: int) {
    0 <= i <= |s| - |t| && s[i..i + |t|] == t
  }

  /** String.contains: t occurs somewhere in s. */
  predicate Contains(s: string, t: string) {
    exists i :: 0 <= i <= |s| && OccursAt(s, t, i)
  }

  lemma ContainsItself(s: string)
    ensures Contains(s, s)
  {
    assert s[0..|s|] == s;
    assert OccursAt(s, s, 0);
  }

  /** Text around an occurrence keeps it. */
  lemma ContainsWithin(a: string, s: string, b: string, t: string)
    requires Contains(s, t)
    ensures Contains(a + s + b, t)
  {
    var i :| 0 <= i <= |s| && OccursAt(s, t, i);
    var w := a + s + b;
    assert w[|a| + i..|a| + i + |t|] == s[i..i + |t|];
    assert OccursAt(w, t, |a| + i);
  }

  // ---------------------------------------------------------------------
  // Reports built entry by entry

  /** Two parts of a report in order: the first error, or both texts one after the other. */
  function Joined(before: Result<string>, after: Result<string>): Result<string> {
    match before
    case Err(e) => Err(e)
    case Ok(t) =>
      match after
      case Err(e) => Err(e)
      case Ok(u) => Ok(t + u)
  }

  /** `rep` builds a report by appending each entry's part, computed by `one`, to the report of the entries before it. */
  ghost predicate BuiltByJoining<T(!new)>(rep: seq<T> -> Result<string>, one: T -> Result<string>) {
    && rep([]) == Ok([])
    && forall s: seq<T>, x: T {:trigger rep(s + [x])} :: rep(s + [x]) == Joined(rep(s), one(x))
  }

  /** Such a report of two runs that succeed is their two reports one after the other. */
  lemma {:induction false} JoinedAppend<T(!new)>(rep: seq<T> -> Result<string>, one: T -> Result<string>, a: seq<T>, b: seq<T>)
    requires BuiltByJoining(rep, one)
    requires rep(a).Ok? && rep(b).Ok?
    ensures rep(a + b) == Ok(rep(a).value + rep(b).value)
    decreases |b|
  {
    if b == [] {
      assert a + b == a;
      assert rep(a).value + [] == rep(a).value;
    } else {
      var front := b[..|b| - 1];
      var x := b[|b| - 1];
      assert front + [x] == b;
      assert (a + front) + [x] == a + b;
      assert rep(front + [x]) == Joined(rep(front), one(x));
      JoinedAppend(rep, one, a, front);
      assert rep((a + front) + [x]) == Joined(rep(a + front), one(x));
      assert (rep(a).value + rep(front).value) + one(x).value == rep(a).value + (rep(front).value + one(x).value);
    }
  }

  /** Such a report that succeeds succeeds on every prefix. */
  lemma {:induction false} JoinedPrefixOk<T(!new)>(rep: seq<T> -> Result<string>, one: T -> Result<string>, a: seq<T>, b: seq<T>)
    requires BuiltByJoining(rep, one) && rep(a + b).Ok?
    ensures rep(a).Ok?
    decreases |b|
  {
    if b == [] {
      assert a + b == a;
    } else {
      var front := b[..|b| - 1];
      var x := b[|b| - 1];
      assert (a + front) + [x] == a + b;
      assert rep((a + front) + [x]) == Joined(rep(a + front), one(x));
      JoinedPrefixOk(rep, one, a, front);
    }
  }

  /** Such a report that succeeds succeeds on every suffix. */
  lemma {:induction false} JoinedSuffixOk<T(!new)>(rep: seq<T> -> Result<string>, one: T -> Result<string>, a: seq<T>, b: seq<T>)
    requires BuiltByJoining(rep, one) && rep(a + b).Ok?
    ensures rep(b).Ok?
    decreases |b|
  {
    if b != [] {
      var front := b[..|b| - 1];
      var x := b[|b| - 1];
      assert front + [x] == b;
      assert (a + front) + [x] == a + b;
      assert rep((a + front) + [x]) == Joined(rep(a + front), one(x));
      JoinedSuffixOk(rep, one, a, front);
      assert rep(front + [x]) == Joined(rep(front), one(x));
    }
  }

  /** In such a report that succeeds, every entry's part succeeds. */
  lemma JoinedEntryOk<T(!new)>(rep: seq<T> -> Result<string>, one: T -> Result<string>, items: seq<T>, k: nat)
    requires BuiltByJoining(rep, one) && k < |items| && rep(items).Ok?
    ensures one(items[k]).Ok?
  {
    assert (items[..k] + [items[k]]) + items[k + 1..] == items;
    JoinedPrefixOk(rep, one, items[..k] + [items[k]], items[k + 1..]);
    assert rep(items[..k] + [items[k]]) == Joined(rep(items[..k]), one(items[k]));
  }

  /** Whatever one entry's part contains, such a report that succeeds contains. */
  lemma JoinedContains<T(!new)>(rep: seq<T> -> Result<string>, one: T -> Result<string>, items: seq<T>, k: nat, t: string)
    requires BuiltByJoining(rep, one) && k < |items| && rep(items).Ok?
    requires one(items[k]).Ok? && Contains(one(items[k]).value, t)
    ensures Contains(rep(items).value, t)
  {
    var a := items[..k];
    var x := items[k];
    var b := items[k + 1..];
    assert (a + [x]) + b == items;
    JoinedPrefixOk(rep, one, a + [x], b);
    JoinedSuffixOk(rep, one, a + [x], b);
    JoinedPrefixOk(rep, one, a, [x]);
    assert rep(a + [x]) == Joined(rep(a), one(x));
    JoinedAppend(rep, one, a + [x], b);
    ContainsWithin(rep(a).value, one(x).value, rep(b).value, t);
  }

  /** An entry whose part fails after the entries before it succeeded is where such a report fails. */
  lemma JoinedStopsAt<T(!new)>(rep: seq<T> -> Result<string>, one: T -> Result<string>, items: seq<T>, i: nat, e: Error)
    requires BuiltByJoining(rep, one) && i < |items| && rep(items[..i]).Ok? && one(items[i]) == Err(e)
    ensures rep(items) == Err(e)
  {
    assert items[..i] + [items[i]] == items[..i + 1];
    assert rep(items[..i] + [items[i]]) == Joined(rep(items[..i]), one(items[i]));
    JoinedErrPropagates(rep, one, items[..i + 1], items[i + 1..]);
    assert items[..i + 1] + items[i + 1..] == items;
  }

  /** Once such a report fails, it fails the same way whatever entries follow. */
  lemma {:induction false} JoinedErrPropagates<T(!new)>(rep: seq<T> -> Result<string>, one: T -> Result<string>, a: seq<T>, b: seq<T>)
    requires BuiltByJoining(rep, one) && rep(a).Err?
    ensures rep(a + b) == rep(a)
    decreases |b|
  {
    if b == [] {
      assert a + b == a;
    } else {
      var front := b[..|b| - 1];
      var x := b[|b| - 1];
      assert (a + front) + [x] == a + b;
      assert rep((a + front) + [x]) == Joined(rep(a + front), one(x));
      JoinedErrPropagates(rep, one, a, front);
    }
  }

  // ---------------------------------------------------------------------
  // Number rendering: Integer.toString and Long.toHexString of non-negative values

  function DigitChar(d: nat): char
    requires d < 16
  {
    if d < 10 then ('0' as int + d) as char else ('a' as int + d - 10) as char
  }

  function DigitValue(c: char): int {
    if '0' <= c <= '9' then c as int - '0' as int
    else if 'a' <= c <= 'f' then c as int - 'a' as int + 10
    else -1
  }

  lemma DigitCharValue(d: nat)
    requires d < 16
    ensures DigitValue(DigitChar(d)) == d
  {
  }

  lemma DivStep(n: nat, base: nat)
    requires 2 <= base && n >= base
    ensures 1 <= n / base < n && n == (n / base) * base + n % base && 0 <= n % base < base
  {
  }

  /** The digits of n in the given base, most significant first, without leading zeros ("0" for 0). */
  function Digits(n: nat, base: nat): (r: string)
    requires 2 <= base <= 16
    decreases n
  {
    if n < base then [DigitChar(n)]
    else
      DivStep(n, base);
      Digits(n / base, base) + [DigitChar(n % base)]
  }

  /** Reads back a digit string written by Digits. */
  function ParseDigits(s: string, base: nat): int
    requires 2 <= base <= 16
  {
    if s == [] then 0 else ParseDigits(s[..|s| - 1], base) * base + DigitValue(s[|s| - 1])
  }

  function Decimal(n: nat): string {
    Digits(n, 10)
  }

  /** Long.toHexString for a non-negative value: lower-case, unpadded. */
  function Hex(n: nat): string {
    Digits(n, 16)
  }

  lemma {:induction false} DigitsRoundTrip(n: nat, base: nat)
    requires 2 <= base <= 16
    ensures ParseDigits(Digits(n, base), base) == n
    decreases n
  {
    if n < base {
      DigitCharValue(n);
      assert [DigitChar(n)][..0] == [];
    } else {
      DivStep(n, base);
      DigitsRoundTrip(n / base, base);
      DigitCharValue(n % base);
      var d := Digits(n / base, base) + [DigitChar(n % base)];
      assert d[..|d| - 1] == Digits(n / base, base);
    }
  }

  /** Rendering is injective: different sizes or checksums never print alike. */
  lemma HexInjective(m: nat, n: nat)
    ensures Hex(m) == Hex(n) ==> m == n
  {
    DigitsRoundTrip(m, 16);
    DigitsRoundTrip(n, 16);
  }

  lemma DecimalInjective(m: nat, n: nat)
    ensures Decimal(m) == Decimal(n) ==> m == n
  {
    DigitsRoundTrip(m, 10);
    DigitsRoundTrip(n, 10);
  }
}
