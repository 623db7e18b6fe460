/** Rendering a position of a condition tree as "conditions[i].conditions[j]." and reading it back. */
module ErrorPaths {
  function Open(): string {
    "conditions["
  }

  function Digit(d: nat): char
    requires d < 10
  {
    "0123456789"[d]
  }

  predicate IsDigit(c: char) {
    '0' <= c <= '9'
  }

  /** Integer#to_s for a non-negative index. */
  function Decimal(n: nat): string {
    if n < 10 then [Digit(n)] else Decimal(n / 10) + [Digit(n % 10)]
  }

  function DigitValue(c: char): nat {
    if IsDigit(c) then c as int - '0' as int else 0
  }

  function Value(s: string): nat {
    if s == [] then 0 else 10 * Value(s[..|s| - 1]) + DigitValue(s[|s| - 1])
  }

  lemma {:induction false} DecimalReadsBack(n: nat)
    ensures forall c <- Decimal(n) :: IsDigit(c)
    ensures Decimal(n) != [] && Value(Decimal(n)) == n
  {
    if n < 10 {
      assert Digit(n) as int == '0' as int + n;
      assert Value([]) == 0 && [Digit(n)][..0] == [];
    } else {
      DecimalReadsBack(n / 10);
      var front := Decimal(n / 10);
      assert (front + [Digit(n % 10)])[..|front|] == front;
      assert Digit(n % 10) as int == '0' as int + n % 10;
    }
  }

  /** One step down the tree. */
  function Segment(i: nat): string {
    Open() + Decimal(i) + "]."
  }

  function Render(path: seq<nat>): string {
    if path == [] then "" else Segment(path[0]) + Render(path[1..])
  }

  /** How a position of two steps is written. */
  lemma SecondOfFirst()
    ensures Render([0, 12]) == "conditions[0]" + ".conditions[12]" + "."
  {
    assert Decimal(0) == ['0'];
    assert Decimal(12) == Decimal(1) + ['2'] == ['1', '2'];
    assert [0, 12][1..] == [12] && [12][1..] == [];
    assert Render([12]) == Segment(12) + Render([]);
    assert Render([0, 12]) == Segment(0) + Render([12]);
    assert Segment(0) == "conditions[" + ['0'] + "].";
    assert Segment(12) == "conditions[" + ['1', '2'] + "].";
  }

  function LeadingDigits(s: string): (k: nat)
    ensures k <= |s|
  {
    if s == [] || !IsDigit(s[0]) then 0 else 1 + LeadingDigits(s[1..])
  }

  lemma {:induction false} LeadingDigitsStop(digits: string, rest: string)
    requires forall c <- digits :: IsDigit(c)
    requires rest != [] && !IsDigit(rest[0])
    ensures LeadingDigits(digits + rest) == |digits|
  {
    if digits == [] {
      assert digits + rest == rest;
    } else {
      assert (digits + rest)[1..] == digits[1..] + rest;
      LeadingDigitsStop(digits[1..], rest);
    }
  }

  /** What stands at the front of a message: an index in brackets, or something else. */
  datatype Front = Index(i: nat, rest: string) | Other

  /** Reads digits up to a closing bracket. */
  function ReadIndex(t: string): (f: Front)
    ensures f.Index? ==> |f.rest| < |t|
  {
    var k := LeadingDigits(t);
    if k == |t| || t[k] != ']' then Other else Index(Value(t[..k]), t[k + 1..])
  }

  function ReadSegment(message: string): (f: Front)
    ensures f.Index? ==> |f.rest| < |message|
  {
    if Open() <= message then ReadIndex(message[|Open()|..]) else Other
  }

  /** Reads the position back from a message: leading segments, the last of which may lack its dot. */
  function PathOf(message: string): seq<nat>
    decreases |message|
  {
    match ReadSegment(message)
    case Other => []
    case Index(i, rest) => [i] + (if rest != [] && rest[0] == '.' then PathOf(rest[1..]) else [])
  }

  lemma IndexReadsBack(i: nat, rest: string)
    ensures ReadIndex(Decimal(i) + "]" + rest) == Index(i, rest)
  {
    DecimalReadsBack(i);
    LeadingDigitsStop(Decimal(i), "]" + rest);
    var t, k := Decimal(i) + "]" + rest, |Decimal(i)|;
    assert t == Decimal(i) + ("]" + rest);
    assert t[..k] == Decimal(i) && t[k] == ']' && t[k + 1..] == rest;
  }

  lemma AfterOpen(t: string)
    ensures ReadSegment(Open() + t) == ReadIndex(t)
  {
    assert (Open() + t)[|Open()|..] == t;
  }

  lemma SegmentReadsBack(i: nat, rest: string)
    ensures ReadSegment(Open() + (Decimal(i) + "]" + rest)) == Index(i, rest)
  {
    AfterOpen(Decimal(i) + "]" + rest);
    IndexReadsBack(i, rest);
  }

  lemma SegmentShape(i: nat, rest: string)
    ensures Segment(i) + rest == Open() + (Decimal(i) + "]" + ("." + rest))
  {
  }

  lemma PathOfSegment(i: nat, rest: string)
    ensures PathOf(Segment(i) + rest) == [i] + PathOf(rest)
  {
    SegmentShape(i, rest);
    SegmentReadsBack(i, "." + rest);
    assert ("." + rest)[1..] == rest;
  }

  lemma ConcatenationAssociates<T>(a: seq<T>, b: seq<T>, c: seq<T>)
    ensures (a + b) + c == a + (b + c)
  {
  }

  lemma RenderSplits(path: seq<nat>, text: string)
    requires path != []
    ensures Render(path) + text == Segment(path[0]) + (Render(path[1..]) + text)
  {
  }

  lemma {:induction false} RenderReadsBack(path: seq<nat>, text: string)
    ensures PathOf(Render(path) + text) == path + PathOf(text)
  {
    if path == [] {
      assert Render(path) + text == text && path + PathOf(text) == PathOf(text);
    } else {
      RenderSplits(path, text);
      PathOfSegment(path[0], Render(path[1..]) + text);
      RenderReadsBack(path[1..], text);
      assert path == [path[0]] + path[1..];
      ConcatenationAssociates([path[0]], path[1..], PathOf(text));
    }
  }

  lemma {:induction false} RenderAppend(path: seq<nat>, i: nat)
    ensures Render(path + [i]) == Render(path) + Segment(i)
  {
    if path == [] {
      assert [i][1..] == [];
    } else {
      assert (path + [i])[1..] == path[1..] + [i];
      RenderAppend(path[1..], i);
    }
  }

  /** Two positions never share a rendering. */
  lemma RenderIsInjective(p: seq<nat>, q: seq<nat>)
    ensures Render(p) == Render(q) ==> p == q
  {
    RenderReadsBack(p, []);
    RenderReadsBack(q, []);
    assert Render(p) + [] == Render(p) && Render(q) + [] == Render(q);
    assert p + PathOf([]) == p && q + PathOf([]) == q;
  }
}
