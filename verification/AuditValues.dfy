/** Snapshot values: what a caller passes, what the jsonb column keeps of it, and what is read back. */
module AuditValues {
  import opened Options
  import opened JsonValues
  import ErrorPaths

  /** A UTC time; `second` counts from the epoch and the fraction is cut off, never rounded. */
  datatype Instant = Instant(second: int, nanosecond: nat)

  /** The bit pattern of a finite IEEE 754 double. */
  type Double = nat

  const NEGATIVE_ZERO: Double := 0x8000_0000_0000_0000

  /** A Ruby value; symbols, dates, uuids and decimals are written as text by every encoder involved. */
  datatype Value =
    | Nil
    | Bool(b: bool)
    | Int(n: int)
    | Float(x: Double)
    | Text(s: string)
    | Time(at: Instant)
    | List(elems: seq<Value>)
    | Hash(fields: map<string, Value>)

  /** A jsonb value; a number keeps how many digits follow its point, so 0.1 and 0.10 differ. */
  datatype Jsonb =
    | Null
    | Boolean(b: bool)
    | Number(digits: int, scale: nat)
    | String(s: string)
    | Array(items: seq<Jsonb>)
    | Object(members: map<string, Jsonb>)

  /** The text of a float: digits times ten to the exponent, so "5.0" is (50, -1) and "1e20" is (1, 20). */
  datatype Decimal = Decimal(digits: int, exponent: int)

  function Pow10(n: nat): (p: int)
    ensures p > 0
  {
    if n == 0 then 1 else 10 * Pow10(n - 1)
  }

  /** The digits with the point moved `scale` places to the left. */
  function Fraction(digits: int, scale: nat): real {
    digits as real / Pow10(scale) as real
  }

  function Amount(d: Decimal): real {
    if d.exponent >= 0 then (d.digits * Pow10(d.exponent)) as real else Fraction(d.digits, -d.exponent)
  }

  /** A number's last `width` decimal digits. */
  function Digits(n: nat, width: nat): (s: string)
    ensures |s| == width
  {
    if width == 0 then "" else Digits(n / 10, width - 1) + [('0' as int + n % 10) as char]
  }

  /** `present?` of a value read from a column. */
  predicate IsPresent(v: Value) {
    match v
    case Nil => false
    case Bool(b) => b
    case Text(s) => !BlankText(s)
    case List(elems) => elems != []
    case Hash(fields) => fields != map[]
    case _ => true
  }

  predicate BlankText(s: string) {
    forall c <- s :: IsSpace(c)
  }

  /** How Ruby writes and reads floats, and how it writes a time down to the second. */
  datatype Codec = Codec(emit: Double -> Decimal, parse: real -> Double, stamp: int -> string) {
    /** A float's text reads back as the float; a decimal number has no negative zero. */
    ghost predicate Lawful() {
      && (forall x: Double :: ReadsBack(x))
      && parse(Amount(emit(NEGATIVE_ZERO))) != NEGATIVE_ZERO
    }

    predicate ReadsBack(x: Double) {
      x != NEGATIVE_ZERO ==> parse(Amount(emit(x))) == x
    }

    // ── Hashing ──────────────────────────────────────────────────────────────

    /** What the hash covers: times as ISO 8601 with six fractional digits, key order forgotten. */
    function Canonical(v: Value): Value {
      match v
      case Time(t) => Text(stamp(t.second) + "." + Digits(t.nanosecond / 1_000, 6) + "Z")
      case List(elems) => List(seq(|elems|, i requires 0 <= i < |elems| => Canonical(elems[i])))
      case Hash(fields) => Hash(map k | k in fields :: Canonical(fields[k]))
      case _ => v
    }

    // ── The column ───────────────────────────────────────────────────────────

    /** The JSON encoder writes times with three fractional digits, and jsonb writes exponents out. */
    function Encode(v: Value): Jsonb {
      match v
      case Nil => Null
      case Bool(b) => Boolean(b)
      case Int(n) => Number(n, 0)
      case Float(x) =>
        var d := emit(x);
        if d.exponent < 0 then Number(d.digits, -d.exponent) else Number(d.digits * Pow10(d.exponent), 0)
      case Text(s) => String(s)
      case Time(t) => String(stamp(t.second) + "." + Digits(t.nanosecond / 1_000_000, 3) + "Z")
      case List(elems) => Array(seq(|elems|, i requires 0 <= i < |elems| => Encode(elems[i])))
      case Hash(fields) => Object(map k | k in fields :: Encode(fields[k]))
    }

    /** A number without a fraction is read as an Integer, any other as the nearest Float; strings stay strings. */
    function Decode(j: Jsonb): Value {
      match j
      case Null => Nil
      case Boolean(b) => Bool(b)
      case Number(digits, scale) => if scale == 0 then Int(digits) else Float(parse(Fraction(digits, scale)))
      case String(s) => Text(s)
      case Array(items) => List(seq(|items|, i requires 0 <= i < |items| => Decode(items[i])))
      case Object(members) => Hash(map k | k in members :: Decode(members[k]))
    }

    /** Assigning nil to a jsonb column stores SQL NULL. */
    function Store(v: Value): Option<Jsonb> {
      if v.Nil? then None else Some(Encode(v))
    }

    function Load(column: Option<Jsonb>): Value {
      match column
      case None => Nil
      case Some(j) => Decode(j)
    }

    // ── Which values survive the column ──────────────────────────────────────

    /** No time anywhere, and no float that is a negative zero or is written without a fraction. */
    predicate Durable(v: Value) {
      match v
      case Time(_) => false
      case Float(x) => x != NEGATIVE_ZERO && emit(x).exponent < 0
      case List(elems) => forall e <- elems :: Durable(e)
      case Hash(fields) => forall k <- fields :: Durable(fields[k])
      case _ => true
    }

    /** Reading never yields a time, so what is read is hashed as it is. */
    lemma {:induction false} DecodedIsCanonical(j: Jsonb)
      ensures Canonical(Decode(j)) == Decode(j)
    {
      match j
      case Array(items) =>
        forall i | 0 <= i < |items| ensures Canonical(Decode(items[i])) == Decode(items[i]) {
          DecodedIsCanonical(items[i]);
        }
      case Object(members) =>
        forall k | k in members ensures Canonical(Decode(members[k])) == Decode(members[k]) {
          DecodedIsCanonical(members[k]);
        }
      case _ =>
    }

    lemma AppendedDigit(front: string, d: nat)
      requires d < 10
      ensures var c := ('0' as int + d) as char;
              ErrorPaths.IsDigit(c) && ErrorPaths.Value(front + [c]) == 10 * ErrorPaths.Value(front) + d
    {
      var s := front + [('0' as int + d) as char];
      assert s[..|s| - 1] == front;
    }

    /** The digits of a number that fits read back as it. */
    lemma {:induction false} DigitsReadBack(n: nat, width: nat)
      requires n < Pow10(width)
      ensures ErrorPaths.Value(Digits(n, width)) == n
      ensures forall c <- Digits(n, width) :: ErrorPaths.IsDigit(c)
    {
      if width == 0 {
      } else {
        DigitsReadBack(n / 10, width - 1);
        AppendedDigit(Digits(n / 10, width - 1), n % 10);
      }
    }

    lemma SameTail(s: string, t: string, x: string, y: string)
      requires |x| == |y|
      ensures s + "." + x + "Z" == t + "." + y + "Z" <==> s == t && x == y
    {
      var a, b := s + "." + x + "Z", t + "." + y + "Z";
      if a == b {
        assert a[..|s|] == s && b[..|t|] == t;
        assert a[|s| + 1..|s| + 1 + |x|] == x && b[|t| + 1..|t| + 1 + |y|] == y;
      }
    }

    /** Times hash alike exactly within one microsecond, and are stored alike exactly within one millisecond. */
    lemma TimesDiffer(t: Instant, u: Instant)
      requires t.nanosecond < 1_000_000_000 && u.nanosecond < 1_000_000_000
      ensures Canonical(Time(t)) == Canonical(Time(u)) <==>
              stamp(t.second) == stamp(u.second) && t.nanosecond / 1_000 == u.nanosecond / 1_000
      ensures Encode(Time(t)) == Encode(Time(u)) <==>
              stamp(t.second) == stamp(u.second) && t.nanosecond / 1_000_000 == u.nanosecond / 1_000_000
    {
      SameTail(stamp(t.second), stamp(u.second), Digits(t.nanosecond / 1_000, 6), Digits(u.nanosecond / 1_000, 6));
      SameTail(stamp(t.second), stamp(u.second),
               Digits(t.nanosecond / 1_000_000, 3), Digits(u.nanosecond / 1_000_000, 3));
      ThousandAndMillion();
      DigitsReadBack(t.nanosecond / 1_000, 6);
      DigitsReadBack(u.nanosecond / 1_000, 6);
      DigitsReadBack(t.nanosecond / 1_000_000, 3);
      DigitsReadBack(u.nanosecond / 1_000_000, 3);
    }

    lemma ThousandAndMillion()
      ensures Pow10(3) == 1_000 && Pow10(6) == 1_000_000
    {
      assert Pow10(1) == 10 * Pow10(0) && Pow10(2) == 10 * Pow10(1) && Pow10(3) == 10 * Pow10(2);
      assert Pow10(4) == 10 * Pow10(3) && Pow10(5) == 10 * Pow10(4) && Pow10(6) == 10 * Pow10(5);
    }

    /** A second, a point, so many digits that read as the fraction, and a Z. */
    ghost predicate IsStamp(s: string, second: int, width: nat, fraction: nat) {
      var n := |stamp(second)|;
      && |s| == n + 1 + width + 1
      && s[..n] == stamp(second) && s[n] == '.' && s[n + 1 + width] == 'Z'
      && (forall c <- s[n + 1..n + 1 + width] :: ErrorPaths.IsDigit(c))
      && ErrorPaths.Value(s[n + 1..n + 1 + width]) == fraction
    }

    /** A time is hashed to the microsecond and stored to the millisecond. */
    lemma TimeFormats(t: Instant)
      requires t.nanosecond < 1_000_000_000
      ensures Canonical(Time(t)).Text? && IsStamp(Canonical(Time(t)).s, t.second, 6, t.nanosecond / 1_000)
      ensures Encode(Time(t)).String? && IsStamp(Encode(Time(t)).s, t.second, 3, t.nanosecond / 1_000_000)
    {
      ThousandAndMillion();
      FractionStamp(t.second, t.nanosecond / 1_000, 6);
      FractionStamp(t.second, t.nanosecond / 1_000_000, 3);
    }

    lemma FractionStamp(second: int, n: nat, width: nat)
      requires n < Pow10(width)
      ensures IsStamp(stamp(second) + "." + Digits(n, width) + "Z", second, width, n)
    {
      DigitsReadBack(n, width);
      StampOf(second, Digits(n, width));
    }

    lemma StampOf(second: int, digits: string)
      requires forall c <- digits :: ErrorPaths.IsDigit(c)
      ensures IsStamp(stamp(second) + "." + digits + "Z", second, |digits|, ErrorPaths.Value(digits))
    {
      var s, n := stamp(second) + "." + digits + "Z", |stamp(second)|;
      assert s[..n] == stamp(second) && s[n + 1..n + 1 + |digits|] == digits;
    }

    /** Whether a value is blank does not change in the column. */
    lemma PresentSurvives(v: Value)
      ensures IsPresent(Load(Store(v))) <==> IsPresent(v)
    {
      match v
      case Time(t) =>
        var s := stamp(t.second) + "." + Digits(t.nanosecond / 1_000_000, 3) + "Z";
        assert s[|s| - 1] == 'Z' && s[|s| - 1] in s;
      case List(elems) => assert |Decode(Encode(v)).elems| == |elems|;
      case Hash(fields) => assert Decode(Encode(v)).fields.Keys == fields.Keys;
      case _ =>
    }

    lemma TimeIsCut(t: Instant)
      ensures Canonical(Time(t)) != Decode(Encode(Time(t)))
    {
      var hashed := stamp(t.second) + "." + Digits(t.nanosecond / 1_000, 6) + "Z";
      var stored := stamp(t.second) + "." + Digits(t.nanosecond / 1_000_000, 3) + "Z";
      assert |hashed| == |stored| + 3;
    }

    lemma ListSurvivesIff(elems: seq<Value>)
      requires forall e <- elems :: Canonical(e) == Decode(Encode(e)) <==> Durable(e)
      ensures Canonical(List(elems)) == Decode(Encode(List(elems))) <==> Durable(List(elems))
    {
      var hashed, read := Canonical(List(elems)), Decode(Encode(List(elems)));
      if hashed == read {
        forall e | e in elems ensures Durable(e) {
          var i :| 0 <= i < |elems| && elems[i] == e;
          assert hashed.elems[i] == read.elems[i];
        }
      } else {
        assert hashed.elems != read.elems;
        var i :| 0 <= i < |elems| && hashed.elems[i] != read.elems[i];
        assert elems[i] in elems && !Durable(elems[i]);
      }
    }

    lemma HashSurvivesIff(fields: map<string, Value>)
      requires forall k <- fields :: Canonical(fields[k]) == Decode(Encode(fields[k])) <==> Durable(fields[k])
      ensures Canonical(Hash(fields)) == Decode(Encode(Hash(fields))) <==> Durable(Hash(fields))
    {
      var hashed, read := Canonical(Hash(fields)), Decode(Encode(Hash(fields)));
      if hashed == read {
        forall k | k in fields ensures Durable(fields[k]) {
          assert hashed.fields[k] == read.fields[k];
        }
      } else {
        assert hashed.fields != read.fields;
        assert hashed.fields.Keys == read.fields.Keys == fields.Keys;
        var k :| k in fields && hashed.fields[k] != read.fields[k];
        assert !Durable(fields[k]);
      }
    }

    /** What is hashed when a value is written is what is hashed when it is read back, exactly for durable values. */
    lemma {:induction false} SurvivesIff(v: Value)
      requires Lawful()
      ensures Canonical(v) == Decode(Encode(v)) <==> Durable(v)
    {
      match v
      case Time(t) => TimeIsCut(t);
      case Float(x) => assert ReadsBack(x);
      case List(elems) =>
        forall e | e in elems ensures Canonical(e) == Decode(Encode(e)) <==> Durable(e) {
          SurvivesIff(e);
        }
        ListSurvivesIff(elems);
      case Hash(fields) =>
        forall k | k in fields ensures Canonical(fields[k]) == Decode(Encode(fields[k])) <==> Durable(fields[k]) {
          SurvivesIff(fields[k]);
        }
        HashSurvivesIff(fields);
      case _ =>
    }

    /** The same through the column, where nil is SQL NULL. */
    lemma RoundTripIff(v: Value)
      requires Lawful()
      ensures Canonical(v) == Canonical(Load(Store(v))) <==> Durable(v)
    {
      SurvivesIff(v);
      if !v.Nil? {
        DecodedIsCanonical(Encode(v));
      }
    }

    // ── Which stored values are read alike ───────────────────────────────────

    /** Numbers of one kind that round to one double, at the same places of the same structure. */
    predicate Alike(a: Jsonb, b: Jsonb) {
      match (a, b)
      case (Number(m, s), Number(n, t)) =>
        if s == 0 || t == 0 then a == b else parse(Fraction(m, s)) == parse(Fraction(n, t))
      case (Array(p), Array(q)) => |p| == |q| && forall i :: 0 <= i < |p| ==> Alike(p[i], q[i])
      case (Object(p), Object(q)) => p.Keys == q.Keys && forall k <- p :: Alike(p[k], q[k])
      case (_, _) => a == b
    }

    lemma {:induction false} ReadAlikeIff(a: Jsonb, b: Jsonb)
      ensures Decode(a) == Decode(b) <==> Alike(a, b)
    {
      match (a, b)
      case (Array(p), Array(q)) =>
        forall i | 0 <= i < |p| && i < |q| ensures Decode(p[i]) == Decode(q[i]) <==> Alike(p[i], q[i]) {
          ReadAlikeIff(p[i], q[i]);
        }
        if Decode(a) == Decode(b) {
          assert |Decode(a).elems| == |p| && |Decode(b).elems| == |q|;
          forall i | 0 <= i < |p| ensures Alike(p[i], q[i]) {
            assert Decode(a).elems[i] == Decode(b).elems[i];
          }
        } else if |p| == |q| {
          var i :| 0 <= i < |p| && Decode(a).elems[i] != Decode(b).elems[i];
          assert !Alike(p[i], q[i]);
        }
      case (Object(p), Object(q)) =>
        forall k | k in p && k in q ensures Decode(p[k]) == Decode(q[k]) <==> Alike(p[k], q[k]) {
          ReadAlikeIff(p[k], q[k]);
        }
        assert Decode(a).fields.Keys == p.Keys && Decode(b).fields.Keys == q.Keys;
        if Decode(a) == Decode(b) {
          forall k | k in p ensures Alike(p[k], q[k]) {
            assert Decode(a).fields[k] == Decode(b).fields[k];
          }
        } else if p.Keys == q.Keys {
          var k :| k in p && Decode(a).fields[k] != Decode(b).fields[k];
          assert !Alike(p[k], q[k]);
        }
      case (_, _) =>
    }

    /** Columns are read alike as their values are, and a JSON null like SQL NULL. */
    predicate AlikeColumns(a: Option<Jsonb>, b: Option<Jsonb>) {
      match (a, b)
      case (Some(x), Some(y)) => Alike(x, y)
      case (_, _) => (a.None? || a == Some(Null)) && (b.None? || b == Some(Null))
    }

    lemma LoadedAlikeIff(a: Option<Jsonb>, b: Option<Jsonb>)
      ensures Canonical(Load(a)) == Canonical(Load(b)) <==> AlikeColumns(a, b)
    {
      if a.Some? { DecodedIsCanonical(a.value); }
      if b.Some? { DecodedIsCanonical(b.value); }
      if a.Some? && b.Some? { ReadAlikeIff(a.value, b.value); }
    }

    /** 0.1 and 0.10 are different jsonb values and the same Float. */
    lemma TrailingZeroIsLost()
      ensures Number(1, 1) != Number(10, 2) && Alike(Number(1, 1), Number(10, 2))
    {
      assert Pow10(1) == 10 * Pow10(0) && Pow10(2) == 10 * Pow10(1);
      assert Fraction(1, 1) == 0.1 == Fraction(10, 2);
    }

    /** `task.attributes.except("updated_at")`, the snapshot every task event carries, holds a time. */
    lemma TaskSnapshotIsNotDurable(attributes: map<string, Value>)
      requires "created_at" in attributes && attributes["created_at"].Time?
      ensures !Durable(Hash(attributes - {"updated_at"}))
    {
      var snapshot := attributes - {"updated_at"};
      assert "created_at"[0] != "updated_at"[0];
      assert "created_at" in snapshot && !Durable(snapshot["created_at"]);
    }
  }
}
