/** What the condition validator accepts, where it points, and what normalization preserves. */
module ConditionTheorems {
  import opened JsonValues
  import opened ErrorPaths
  import opened ConditionTree

  // ── The reference: faults of single nodes, over all positions ──────────────

  /** Nil, false, an empty array or object, or text of blanks only. */
  predicate Blank(j: Json) {
    match j
    case JNull => true
    case JBool(b) => !b
    case JString(text) => forall c <- text :: IsSpace(c)
    case JArray(elems) => |elems| == 0
    case JObject(fields) => |fields| == 0
    case _ => false
  }

  /** The key is there, with a value that is not blank. */
  predicate Given(j: Json, key: Key)
    requires j.JObject?
  {
    key in j.fields && !Blank(j.fields[key])
  }

  /** The root is read as a group; below it, a node with an operator or a "conditions" key is one. */
  predicate GroupAt(j: Json, depth: nat) {
    j.JObject? && (depth == 0 || Given(j, OperatorKey) || ConditionsKey in j.fields)
  }

  /** Depth 0 to 5, an operator AND or OR, and an array of at least two conditions. */
  function GroupFaults(j: Json, depth: nat): set<Fault>
    requires j.JObject?
  {
    if depth >= 6 then {TooDeep}
    else if !(OperatorKey in j.fields && j.fields[OperatorKey].JString? && IsAndOr(j.fields[OperatorKey].s))
    then {BadOperator}
    else if !(ConditionsKey in j.fields && j.fields[ConditionsKey].JArray? && |j.fields[ConditionsKey].elems| >= 2)
    then {TooFewConditions}
    else {}
  }

  predicate IsAndOr(s: string) {
    s == "AND" || s == "OR"
  }

  predicate IsSignalType(s: string) {
    || s == "aircraft_position" || s == "vessel_position" || s == "seismic_event" || s == "gps_jamming"
    || s == "wildfire" || s == "ais_gap" || s == "conflict_event" || s == "disaster_alert"
  }

  /** An integer or a float, not below zero. */
  predicate AtLeastZero(j: Json) {
    match j
    case JInt(n) => 0 <= n
    case JFloat(x) => 0.0 <= x
    case _ => false
  }

  /** An integer, not below one. */
  predicate AtLeastOne(j: Json) {
    match j
    case JInt(n) => 0 < n
    case _ => false
  }

  /** A leaf's fields, each either not given or within its own range. */
  predicate InRange(j: Json, fault: Fault)
    requires j.JObject?
  {
    match fault
    case UnknownSignalType(st) =>
      Given(j, SignalTypeKey) && j.fields[SignalTypeKey] == st ==> st.JString? && IsSignalType(st.s)
    case BadProximity => Given(j, ProximityKmKey) ==> AtLeastZero(j.fields[ProximityKmKey])
    case BadCount => Given(j, CountThresholdKey) ==> AtLeastOne(j.fields[CountThresholdKey])
    case BadWindow => Given(j, TimeWindowMinutesKey) ==> AtLeastOne(j.fields[TimeWindowMinutesKey])
    case BadMagnitude => Given(j, MagnitudeMinKey) ==> AtLeastZero(j.fields[MagnitudeMinKey])
    case _ => true
  }

  /** One node's fault, judged on its own. */
  predicate Faulty(j: Json, depth: nat, fault: Fault) {
    if !j.JObject? then fault == NotAHash
    else if GroupAt(j, depth) then fault in GroupFaults(j, depth)
    else !InRange(j, fault)
  }

  ghost predicate Clean(j: Json, depth: nat) {
    forall fault :: !Faulty(j, depth, fault)
  }

  /** `node` stands at `path` below `j`, following the arrays of groups. */
  ghost predicate Reaches(j: Json, depth: nat, path: seq<nat>, node: Json)
    decreases path
  {
    if path == [] then node == j
    else GroupAt(j, depth) && path[0] < |Children(j)|
         && Reaches(Children(j)[path[0]], depth + 1, path[1..], node)
  }

  /** The validator only descends through groups it has no complaint about. */
  ghost predicate Visits(j: Json, depth: nat, path: seq<nat>, node: Json)
    decreases path
  {
    if path == [] then node == j
    else GroupAt(j, depth) && Clean(j, depth) && path[0] < |Children(j)|
         && Visits(Children(j)[path[0]], depth + 1, path[1..], node)
  }

  /** The whole tree is well formed: no reachable node has a fault. */
  ghost predicate WellFormed(root: Json) {
    forall path, node | Reaches(root, 0, path, node) :: Clean(node, |path|)
  }

  ghost predicate Concerns(j: Json, at: seq<nat>, e: Error, path: seq<nat>, node: Json) {
    Visits(j, |at|, path, node) && Faulty(node, |at| + |path|, e.fault) && e.prefix == Render(at + path)
  }

  function ErrorsAt(j: Json, at: seq<nat>): seq<Error> {
    if at == [] && j.JObject? then GroupErrors(j, "", 0) else NodeErrors(j, Render(at), |at|)
  }

  // ── Soundness and completeness ─────────────────────────────────────────────

  lemma InConcatenation(a: seq<Error>, b: seq<Error>, c: seq<Error>, d: seq<Error>, f: seq<Error>, e: Error)
    ensures e in a + b + c + d + f <==> e in a || e in b || e in c || e in d || e in f
  {
  }

  lemma FiveChecks(a: bool, b: bool, c: bool, d: bool, f: bool, prefix: string, st: Json, e: Error)
    ensures e in Check(a, prefix, UnknownSignalType(st)) + Check(b, prefix, BadProximity) + Check(c, prefix, BadCount)
                 + Check(d, prefix, BadWindow) + Check(f, prefix, BadMagnitude)
            <==>
            e.prefix == prefix
            && match e.fault
               case UnknownSignalType(value) => a && value == st
               case BadProximity => b
               case BadCount => c
               case BadWindow => d
               case BadMagnitude => f
               case _ => false
  {
    InConcatenation(
      Check(a, prefix, UnknownSignalType(st)), Check(b, prefix, BadProximity), Check(c, prefix, BadCount),
      Check(d, prefix, BadWindow), Check(f, prefix, BadMagnitude), e);
  }

  /** The model's `present?` is the reference's "given". */
  lemma PresentIffGiven(j: Json, key: Key)
    requires j.JObject?
    ensures Present(Get(j, key)) <==> Given(j, key)
    ensures Given(j, key) ==> Get(j, key) == j.fields[key]
  {
  }

  lemma OneOfTypesIff(j: Json)
    ensures OneOf(j, ValidSignalTypes()) <==> j.JString? && IsSignalType(j.s)
  {
    if j.JString? && IsSignalType(j.s) {
      var i := if j.s == "aircraft_position" then 0 else if j.s == "vessel_position" then 1
               else if j.s == "seismic_event" then 2 else if j.s == "gps_jamming" then 3
               else if j.s == "wildfire" then 4 else if j.s == "ais_gap" then 5
               else if j.s == "conflict_event" then 6 else 7;
      assert ValidSignalTypes()[i] == j.s;
    }
  }

  lemma OneOfOperatorsIff(j: Json)
    ensures OneOf(j, ValidOperators()) <==> j.JString? && IsAndOr(j.s)
  {
    if j.JString? && IsAndOr(j.s) {
      assert ValidOperators()[if j.s == "AND" then 0 else 1] == j.s;
    }
  }

  lemma LeafErrorsAreFaults(j: Json, prefix: string, e: Error)
    requires j.JObject?
    ensures e in LeafErrors(j, prefix) <==> e.prefix == prefix && !InRange(j, e.fault)
  {
    var st, pkm := Get(j, SignalTypeKey), Get(j, ProximityKmKey);
    var ct, tw := Get(j, CountThresholdKey), Get(j, TimeWindowMinutesKey);
    var mm := Get(j, MagnitudeMinKey);
    FiveChecks(
      Fails(st, OneOf(st, ValidSignalTypes())), Fails(pkm, NonNegativeNumber(pkm)), Fails(ct, PositiveInteger(ct)),
      Fails(tw, PositiveInteger(tw)), Fails(mm, NonNegativeNumber(mm)), prefix, st, e);
    FieldsFailIff(j, e.fault);
  }

  /** Whether the check of a field fails, in terms of its value. */
  lemma FieldsFailIff(j: Json, fault: Fault)
    requires j.JObject?
    ensures !InRange(j, fault) <==>
            match fault
            case UnknownSignalType(value) =>
              value == Get(j, SignalTypeKey) && Fails(value, OneOf(value, ValidSignalTypes()))
            case BadProximity => Fails(Get(j, ProximityKmKey), NonNegativeNumber(Get(j, ProximityKmKey)))
            case BadCount => Fails(Get(j, CountThresholdKey), PositiveInteger(Get(j, CountThresholdKey)))
            case BadWindow => Fails(Get(j, TimeWindowMinutesKey), PositiveInteger(Get(j, TimeWindowMinutesKey)))
            case BadMagnitude => Fails(Get(j, MagnitudeMinKey), NonNegativeNumber(Get(j, MagnitudeMinKey)))
            case _ => false
  {
    match fault
    case UnknownSignalType(value) =>
      PresentIffGiven(j, SignalTypeKey);
      OneOfTypesIff(value);
    case BadProximity => PresentIffGiven(j, ProximityKmKey);
    case BadCount => PresentIffGiven(j, CountThresholdKey);
    case BadWindow => PresentIffGiven(j, TimeWindowMinutesKey);
    case BadMagnitude => PresentIffGiven(j, MagnitudeMinKey);
    case _ =>
  }

  /** The validator's own tests of a group, in terms of the reference. */
  lemma GroupTestsIff(j: Json, depth: nat)
    requires j.JObject?
    ensures IsGroup(j) <==> Given(j, OperatorKey) || ConditionsKey in j.fields
    ensures Compound(j) <==> Given(j, OperatorKey)
    ensures GroupFaults(j, depth) ==
            if depth > MAX_DEPTH then {TooDeep}
            else if !ValidOperator(j) then {BadOperator}
            else if !(HasArray(j) && |Children(j)| >= 2) then {TooFewConditions}
            else {}
  {
    PresentIffGiven(j, OperatorKey);
    OneOfOperatorsIff(Get(j, OperatorKey));
  }

  lemma {:induction false} ChildErrorsMembers(j: Json, n: nat, prefix: string, depth: nat, e: Error)
    requires n <= |Children(j)|
    ensures e in ChildErrors(j, n, prefix, depth) <==>
            exists i :: 0 <= i < n && e in NodeErrors(Children(j)[i], prefix + Segment(i), depth + 1)
  {
    if n == 0 {
    } else {
      ChildErrorsMembers(j, n - 1, prefix, depth, e);
      var last := NodeErrors(Children(j)[n - 1], prefix + Segment(n - 1), depth + 1);
      assert ChildErrors(j, n, prefix, depth) == ChildErrors(j, n - 1, prefix, depth) + last;
      if i :| 0 <= i < n && e in NodeErrors(Children(j)[i], prefix + Segment(i), depth + 1) {
        assert i == n - 1 ==> e in last;
      }
    }
  }

  lemma GroupReportsItself(j: Json, prefix: string, depth: nat, e: Error)
    requires j.JObject? && GroupFaults(j, depth) != {}
    ensures e in GroupErrors(j, prefix, depth) <==> e.prefix == prefix && e.fault in GroupFaults(j, depth)
  {
  }

  lemma GroupReportsChildren(j: Json, prefix: string, depth: nat, e: Error)
    requires j.JObject? && GroupFaults(j, depth) == {}
    ensures e in GroupErrors(j, prefix, depth) <==>
            exists i :: 0 <= i < |Children(j)| && e in NodeErrors(Children(j)[i], prefix + Segment(i), depth + 1)
  {
    ChildErrorsMembers(j, |Children(j)|, prefix, depth, e);
  }

  lemma ErrorsAtGroup(j: Json, at: seq<nat>)
    requires GroupAt(j, |at|)
    ensures ErrorsAt(j, at) == GroupErrors(j, Render(at), |at|)
  {
  }

  lemma ErrorsAtChild(j: Json, at: seq<nat>, i: nat)
    ensures ErrorsAt(j, at + [i]) == NodeErrors(j, Render(at) + Segment(i), |at| + 1)
  {
    RenderAppend(at, i);
  }

  lemma CleanGroup(j: Json, depth: nat)
    requires GroupAt(j, depth)
    ensures Clean(j, depth) <==> GroupFaults(j, depth) == {}
  {
    if fault :| fault in GroupFaults(j, depth) {
      assert Faulty(j, depth, fault);
    }
  }

  /** A group without a fault of its own reports exactly its children's errors. */
  lemma CleanGroupReportsChildren(j: Json, at: seq<nat>, e: Error)
    requires GroupAt(j, |at|) && Clean(j, |at|)
    ensures e in ErrorsAt(j, at) <==>
            exists i :: 0 <= i < |Children(j)| && e in ErrorsAt(Children(j)[i], at + [i])
  {
    CleanGroup(j, |at|);
    ErrorsAtGroup(j, at);
    GroupReportsChildren(j, Render(at), |at|, e);
    forall i | 0 <= i < |Children(j)|
      ensures ErrorsAt(Children(j)[i], at + [i]) == NodeErrors(Children(j)[i], Render(at) + Segment(i), |at| + 1)
    {
      ErrorsAtChild(Children(j)[i], at, i);
    }
  }

  lemma FaultyGroupReportsItself(j: Json, at: seq<nat>, e: Error)
    requires GroupAt(j, |at|) && !Clean(j, |at|)
    ensures e in ErrorsAt(j, at) <==> e.prefix == Render(at) && Faulty(j, |at|, e.fault)
  {
    CleanGroup(j, |at|);
    ErrorsAtGroup(j, at);
    GroupReportsItself(j, Render(at), |at|, e);
  }

  /** Any other node reports exactly its own faults. */
  lemma OtherNodeReportsItself(j: Json, at: seq<nat>, e: Error)
    requires !(GroupAt(j, |at|) && Clean(j, |at|))
    ensures e in ErrorsAt(j, at) <==> e.prefix == Render(at) && Faulty(j, |at|, e.fault)
  {
    if GroupAt(j, |at|) {
      FaultyGroupReportsItself(j, at, e);
    } else if j.JObject? {
      GroupTestsIff(j, |at|);
      LeafErrorsAreFaults(j, Render(at), e);
    }
  }

  lemma ConcernsThroughChild(j: Json, at: seq<nat>, e: Error, i: nat, path: seq<nat>, node: Json)
    requires GroupAt(j, |at|) && Clean(j, |at|) && i < |Children(j)|
    ensures Concerns(Children(j)[i], at + [i], e, path, node) <==> Concerns(j, at, e, [i] + path, node)
  {
    assert at + [i] + path == at + ([i] + path) && ([i] + path)[1..] == path;
  }

  lemma ConcernsItself(j: Json, at: seq<nat>, e: Error)
    requires !(GroupAt(j, |at|) && Clean(j, |at|))
    ensures (exists path, node :: Concerns(j, at, e, path, node)) <==>
            e.prefix == Render(at) && Faulty(j, |at|, e.fault)
  {
    assert at + [] == at;
    if e.prefix == Render(at) && Faulty(j, |at|, e.fault) {
      assert Concerns(j, at, e, [], j);
    }
    if path, node :| Concerns(j, at, e, path, node) {
      assert path == [];
    }
  }

  /** Every error concerns one node at one position, and every fault of a visited node is reported. */
  lemma {:induction false} ErrorsAreFaults(j: Json, at: seq<nat>, e: Error)
    ensures e in ErrorsAt(j, at) <==> exists path, node :: Concerns(j, at, e, path, node)
    decreases j
  {
    if GroupAt(j, |at|) && Clean(j, |at|) {
      CleanGroupReportsChildren(j, at, e);
      var cs := Children(j);
      forall i | 0 <= i < |cs|
        ensures e in ErrorsAt(cs[i], at + [i]) <==> exists path, node :: Concerns(cs[i], at + [i], e, path, node)
      {
        ErrorsAreFaults(cs[i], at + [i], e);
      }
      if i :| 0 <= i < |cs| && e in ErrorsAt(cs[i], at + [i]) {
        var path, node :| Concerns(cs[i], at + [i], e, path, node);
        ConcernsThroughChild(j, at, e, i, path, node);
      }
      if path, node :| Concerns(j, at, e, path, node) {
        CleanGroup(j, |at|);
        assert path != [];
        assert path == [path[0]] + path[1..];
        ConcernsThroughChild(j, at, e, path[0], path[1..], node);
      }
    } else {
      OtherNodeReportsItself(j, at, e);
      ConcernsItself(j, at, e);
    }
  }

  lemma {:induction false} CleanVisitsReachAll(j: Json, depth: nat, path: seq<nat>, node: Json)
    requires forall p, n | Visits(j, depth, p, n) :: Clean(n, depth + |p|)
    requires Reaches(j, depth, path, node)
    ensures Visits(j, depth, path, node)
    decreases path
  {
    if path == [] {
    } else {
      assert Visits(j, depth, [], j);
      var child, below := Children(j)[path[0]], depth + 1;
      forall p, n | Visits(child, below, p, n) ensures Clean(n, below + |p|) {
        assert ([path[0]] + p)[1..] == p;
        assert Visits(j, depth, [path[0]] + p, n);
      }
      CleanVisitsReachAll(child, below, path[1..], node);
    }
  }

  lemma {:induction false} VisitedIsReached(j: Json, depth: nat, path: seq<nat>, node: Json)
    requires Visits(j, depth, path, node)
    ensures Reaches(j, depth, path, node)
    decreases path
  {
    if path == [] {
    } else {
      VisitedIsReached(Children(j)[path[0]], depth + 1, path[1..], node);
    }
  }

  /** The group validator is sound and complete: no error exactly when every reachable node is without fault. */
  lemma NoErrorsIffWellFormed(root: Json)
    requires root.JObject?
    ensures GroupErrors(root, "", 0) == [] <==> WellFormed(root)
  {
    if GroupErrors(root, "", 0) == [] {
      forall path, node | Visits(root, 0, path, node) ensures Clean(node, |path|) {
        forall fault ensures !Faulty(node, |path|, fault) {
          var e := Error(Render(path), fault);
          ErrorsAreFaults(root, [], e);
          assert [] + path == path;
          assert Faulty(node, |path|, fault) ==> Concerns(root, [], e, path, node);
        }
      }
      forall path, node | Reaches(root, 0, path, node) ensures Clean(node, |path|) {
        CleanVisitsReachAll(root, 0, path, node);
      }
    } else {
      var e := GroupErrors(root, "", 0)[0];
      assert e in ErrorsAt(root, []);
      ErrorsAreFaults(root, [], e);
      var path, node :| Concerns(root, [], e, path, node);
      VisitedIsReached(root, 0, path, node);
    }
  }

  /** The model's verdict on any stored value, hash or not. */
  lemma ValidIff(c: Json)
    ensures ConditionsErrors(c) == [] <==>
            && Present(c)
            && (Compound(c) ==> WellFormed(c))
            && (c.JObject? && !Compound(c) ==> forall fault :: InRange(c, fault))
  {
    if Compound(c) {
      NoErrorsIffWellFormed(c);
    } else if c.JObject? {
      forall e ensures e in LeafErrors(c, "") <==> e.prefix == "" && !InRange(c, e.fault) {
        LeafErrorsAreFaults(c, "", e);
      }
      if LeafErrors(c, "") != [] {
        assert LeafErrors(c, "")[0] in LeafErrors(c, "");
      }
      forall fault ensures InRange(c, fault) <==> Error("", fault) !in LeafErrors(c, "") {}
    }
  }

  /** A message about a field starts, after the position, with the name of that field. */
  lemma FieldMessages(wording: Fault -> string, st: Json)
    ensures Message(wording, Error("", UnknownSignalType(st))) == "signal_type" + wording(UnknownSignalType(st))
    ensures Message(wording, Error("", BadProximity)) == "proximity_km" + wording(BadProximity)
    ensures Message(wording, Error("", BadCount)) == "count_threshold" + wording(BadCount)
    ensures Message(wording, Error("", BadWindow)) == "time_window_minutes" + wording(BadWindow)
    ensures Message(wording, Error("", BadMagnitude)) == "magnitude_min" + wording(BadMagnitude)
    ensures Message(wording, Error("", BadOperator)) == "operator" + wording(BadOperator)
    ensures Message(wording, Error("", TooDeep)) == "nesting" + wording(TooDeep)
  {
  }

  // ── Messages point at nodes ────────────────────────────────────────────────

  lemma NotASegment(word: string, rest: string)
    requires |word| > 2 && (word[0] != 'c' || word[1] != 'o' || word[2] != 'n')
    ensures PathOf(word + rest) == []
  {
    assert Open()[0] == 'c' && Open()[1] == 'o' && Open()[2] == 'n';
    assert (word + rest)[0] == word[0] && (word + rest)[1] == word[1] && (word + rest)[2] == word[2];
  }

  lemma SubjectIsNotASegment(fault: Fault)
    ensures var word := Subject(fault); |word| > 2 && (word[0] != 'c' || word[1] != 'o' || word[2] != 'n')
  {
    match fault
    case Blank => assert Subject(fault)[1] == 'a';
    case TooFewConditions => assert Subject(fault)[2] == 'm';
    case BadCount => assert Subject(fault)[2] == 'u';
    case _ =>
  }

  /** A message reads back as the position of its error, when that is rendered with its dot. */
  lemma MessageReadsBack(wording: Fault -> string, path: seq<nat>, fault: Fault)
    requires !fault.NotAHash?
    ensures PathOf(Message(wording, Error(Render(path), fault))) == path
  {
    var rest := Subject(fault) + wording(fault);
    SubjectIsNotASegment(fault);
    NotASegment(Subject(fault), wording(fault));
    RenderReadsBack(path, rest);
    assert path + [] == path;
  }

  lemma WithoutDot(front: string, i: nat, text: string)
    ensures (front + Segment(i))[..|front + Segment(i)| - 1] + text == front + (Open() + (Decimal(i) + "]" + text))
  {
    var segment := Open() + Decimal(i) + "]";
    assert Segment(i) == segment + ".";
    assert (front + Segment(i))[..|front + Segment(i)| - 1] == front + segment;
  }

  lemma LastSegment(i: nat, text: string)
    requires text != [] && text[0] != '.'
    ensures PathOf(Open() + (Decimal(i) + "]" + text)) == [i]
  {
    SegmentReadsBack(i, text);
  }

  lemma NotAHashText(wording: Fault -> string, front: string, i: nat)
    ensures Message(wording, Error(front + Segment(i), NotAHash)) ==
            front + (Open() + (Decimal(i) + "]" + (Subject(NotAHash) + wording(NotAHash))))
  {
    assert Segment(i) != [];
    WithoutDot(front, i, Subject(NotAHash) + wording(NotAHash));
  }

  /** And so does "conditions[i] must be a hash", without the dot. */
  lemma NotAHashReadsBack(wording: Fault -> string, front: seq<nat>, i: nat)
    ensures PathOf(Message(wording, Error(Render(front) + Segment(i), NotAHash))) == front + [i]
  {
    var text := Subject(NotAHash) + wording(NotAHash);
    NotAHashText(wording, Render(front), i);
    RenderReadsBack(front, Open() + (Decimal(i) + "]" + text));
    NotAHashTail(wording, i);
  }

  lemma NotAHashTail(wording: Fault -> string, i: nat)
    ensures PathOf(Open() + (Decimal(i) + "]" + (Subject(NotAHash) + wording(NotAHash)))) == [i]
  {
    var text := Subject(NotAHash) + wording(NotAHash);
    assert text[0] == Subject(NotAHash)[0] == ' ';
    LastSegment(i, text);
  }

  lemma MessagePath(wording: Fault -> string, path: seq<nat>, fault: Fault)
    requires fault.NotAHash? ==> path != []
    ensures PathOf(Message(wording, Error(Render(path), fault))) == path
  {
    if fault == NotAHash {
      var front, i := path[..|path| - 1], path[|path| - 1];
      NotAHashReadsBack(wording, front, i);
      RenderAppend(front, i);
      assert path == front + [i];
    } else {
      MessageReadsBack(wording, path, fault);
    }
  }

  lemma ErrorHasPosition(root: Json, e: Error) returns (path: seq<nat>, node: Json)
    requires root.JObject? && e in GroupErrors(root, "", 0)
    ensures Concerns(root, [], e, path, node) && e == Error(Render(path), e.fault)
    ensures e.fault.NotAHash? ==> path != []
  {
    ErrorsAreFaults(root, [], e);
    path, node :| Concerns(root, [], e, path, node);
    assert [] + path == path;
  }

  /** Whatever the sentences say, the message of an error names the node it concerns. */
  lemma MessageNamesNode(wording: Fault -> string, root: Json, e: Error)
    requires root.JObject? && e in GroupErrors(root, "", 0)
    ensures exists node :: Concerns(root, [], e, PathOf(Message(wording, e)), node)
  {
    var path, node := ErrorHasPosition(root, e);
    MessagePath(wording, path, e.fault);
  }

  // ── Normalization ──────────────────────────────────────────────────────────

  function Normalized(c: Json): Json {
    if Compound(c) then c
    else JObject(map[OperatorKey := JString("AND"), ConditionsKey := JArray([c])])
  }

  /** normalized_conditions_supported?: the shape the evaluator is willing to read. */
  predicate Supported(j: Json, depth: nat)
    decreases j
  {
    && depth <= MAX_DEPTH
    && j.JObject?
    && ValidOperator(j)
    && HasArray(j) && (exists c <- Children(j) :: Truthy(c))
    && forall c <- Children(j) :: c.JObject? && (IsGroup(c) ==> Supported(c, depth + 1))
  }

  /** evaluate_group over any decision about leaves. */
  predicate EvaluateGroup(j: Json, depth: nat, leaf: Json -> bool)
    requires Supported(j, depth)
    decreases j, 0
  {
    if Get(j, OperatorKey) == JString("OR")
    then exists c <- Children(j) :: EvaluateNode(c, depth + 1, leaf)
    else forall c <- Children(j) :: EvaluateNode(c, depth + 1, leaf)
  }

  predicate EvaluateNode(j: Json, depth: nat, leaf: Json -> bool)
    requires j.JObject? && (IsGroup(j) ==> Supported(j, depth))
    decreases j, 1
  {
    if IsGroup(j) then EvaluateGroup(j, depth, leaf) else leaf(j)
  }

  /** Groups `levels` deep, each an AND of one deeper and an empty hash. */
  function Nested(levels: nat): Json {
    var inner := if levels == 0 then JObject(map[]) else Nested(levels - 1);
    JObject(map[OperatorKey := JString("AND"), ConditionsKey := JArray([inner, JObject(map[])])])
  }

  lemma LeafWithoutFields(prefix: string)
    ensures LeafErrors(JObject(map[]), prefix) == []
  {
  }

  lemma NestedChildren(levels: nat)
    ensures var j := Nested(levels);
            && Children(j) == [if levels == 0 then JObject(map[]) else Nested(levels - 1), JObject(map[])]
            && ValidOperator(j) && HasArray(j) && IsGroup(j) && !IsGroup(JObject(map[]))
  {
    OneOfOperatorsIff(JString("AND"));
    OperatorsArePresent(JString("AND"));
  }

  /** Depths 0 to 5 are accepted, 6 is not: a tree of nested groups is free of errors up to five levels down. */
  lemma {:induction false} NestingLimit(levels: nat, prefix: string, depth: nat)
    ensures GroupErrors(Nested(levels), prefix, depth) == [] <==> levels + depth <= 5
    decreases levels
  {
    var j := Nested(levels);
    NestedChildren(levels);
    LeafWithoutFields(prefix + Segment(0));
    LeafWithoutFields(prefix + Segment(1));
    if levels > 0 {
      NestingLimit(levels - 1, prefix + Segment(0), depth + 1);
      NestedChildren(levels - 1);
    }
    if depth <= 5 {
      assert GroupErrors(j, prefix, depth) == ChildErrors(j, 2, prefix, depth);
      assert ChildErrors(j, 2, prefix, depth) ==
             ChildErrors(j, 1, prefix, depth) + NodeErrors(Children(j)[1], prefix + Segment(1), depth + 1);
      assert ChildErrors(j, 1, prefix, depth) ==
             ChildErrors(j, 0, prefix, depth) + NodeErrors(Children(j)[0], prefix + Segment(0), depth + 1);
    }
  }

  /** What the evaluator asks of one node it reads, in terms of the stored hash. */
  ghost predicate ReadableNode(node: Json, depth: nat) {
    && node.JObject?
    && (GroupAt(node, depth) ==>
          && depth <= 5
          && OperatorKey in node.fields && node.fields[OperatorKey].JString? && IsAndOr(node.fields[OperatorKey].s)
          && ConditionsKey in node.fields && node.fields[ConditionsKey].JArray?
          && exists c <- node.fields[ConditionsKey].elems :: c != JNull && c != JBool(false))
  }

  lemma SupportedNode(j: Json, depth: nat)
    requires GroupAt(j, depth)
    ensures Supported(j, depth) <==>
            ReadableNode(j, depth) && forall c <- Children(j) :: c.JObject? && (IsGroup(c) ==> Supported(c, depth + 1))
  {
    GroupTestsIff(j, depth);
    OneOfOperatorsIff(Get(j, OperatorKey));
  }

  ghost predicate AllReadable(j: Json, depth: nat) {
    forall path, node | Reaches(j, depth, path, node) :: ReadableNode(node, depth + |path|)
  }

  /** Supported, whether or not it was ever validated, is a tree every reachable node of which can be read. */
  lemma SupportedIff(j: Json, depth: nat)
    requires GroupAt(j, depth)
    ensures Supported(j, depth) <==> AllReadable(j, depth)
  {
    if Supported(j, depth) {
      forall path, node | Reaches(j, depth, path, node) ensures ReadableNode(node, depth + |path|) {
        ReachedIsReadable(j, depth, path, node);
        if GroupAt(node, depth + |path|) { SupportedNode(node, depth + |path|); }
      }
    }
    if AllReadable(j, depth) {
      ReadableIsSupported(j, depth);
    }
  }

  lemma {:induction false} ReadableIsSupported(j: Json, depth: nat)
    requires GroupAt(j, depth)
    requires AllReadable(j, depth)
    ensures Supported(j, depth)
    decreases j
  {
    SupportedNode(j, depth);
    var path: seq<nat> := [];
    assert Reaches(j, depth, path, j) && ReadableNode(j, depth + |path|);
    forall c | c in Children(j) ensures c.JObject? && (IsGroup(c) ==> Supported(c, depth + 1)) {
      var i :| 0 <= i < |Children(j)| && Children(j)[i] == c;
      ChildIsSupported(j, depth, i);
    }
  }

  lemma {:induction false} ChildIsSupported(j: Json, depth: nat, i: nat)
    requires GroupAt(j, depth) && i < |Children(j)|
    requires AllReadable(j, depth)
    ensures Children(j)[i].JObject? && (IsGroup(Children(j)[i]) ==> Supported(Children(j)[i], depth + 1))
    decreases j, 0
  {
    var c, below := Children(j)[i], depth + 1;
    assert c in Children(j);
    forall path, node | Reaches(c, below, path, node) ensures ReadableNode(node, below + |path|) {
      assert ([i] + path)[1..] == path;
      assert Reaches(j, depth, [i] + path, node);
    }
    assert Reaches(c, below, [], c) && ReadableNode(c, below);
    if IsGroup(c) {
      GroupTestsIff(c, below);
      ReadableIsSupported(c, below);
    }
  }

  /** A group's conditions are the array stored under its key. */
  lemma ChildrenAreConditions(j: Json)
    ensures j.JObject? && ConditionsKey in j.fields && j.fields[ConditionsKey].JArray? ==>
              Children(j) == j.fields[ConditionsKey].elems
    ensures !(j.JObject? && ConditionsKey in j.fields && j.fields[ConditionsKey].JArray?) ==> Children(j) == []
  {
  }

  lemma {:induction false} ErrorFreeIsSupported(j: Json, prefix: string, depth: nat)
    requires j.JObject? && GroupErrors(j, prefix, depth) == []
    ensures Supported(j, depth)
    decreases j
  {
    forall i | 0 <= i < |Children(j)|
      ensures NodeErrors(Children(j)[i], prefix + Segment(i), depth + 1) == []
    {
      var errors := NodeErrors(Children(j)[i], prefix + Segment(i), depth + 1);
      if errors != [] {
        assert errors[0] in errors;
        ChildErrorsMembers(j, |Children(j)|, prefix, depth, errors[0]);
      }
    }
    forall c | c in Children(j) ensures c.JObject? && (IsGroup(c) ==> Supported(c, depth + 1)) {
      var i :| 0 <= i < |Children(j)| && Children(j)[i] == c;
      if IsGroup(c) {
        ErrorFreeIsSupported(c, prefix + Segment(i), depth + 1);
      }
    }
    assert Children(j)[0] in Children(j) && Truthy(Children(j)[0]);
  }

  lemma OperatorsArePresent(j: Json)
    ensures OneOf(j, ValidOperators()) ==> Present(j)
  {
    assert "AND"[0] in "AND" && "OR"[0] in "OR";
  }

  /** A rule that passes validation is evaluated unless it is flat with a stray "conditions" key, or not a hash. */
  lemma ValidRuleIsSupportedIff(c: Json)
    requires ConditionsErrors(c) == []
    ensures Supported(Normalized(c), 0) <==> c.JObject? && (Compound(c) || ConditionsKey !in c.fields)
  {
    var n := Normalized(c);
    if Compound(c) {
      ErrorFreeIsSupported(c, "", 0);
    } else {
      assert Children(n) == [c];
      if c.JObject? {
        assert !IsGroup(c) <==> ConditionsKey !in c.fields;
        OperatorsArePresent(Get(c, OperatorKey));
        assert Truthy(c);
      }
    }
  }

  // ── The reference: a choice of nodes that shows the tree holds ─────────────

  /** A chosen OR node has a chosen child, a chosen AND node only chosen children, and a chosen leaf holds. */
  ghost predicate Accounted(nodes: iset<seq<nat>>, path: seq<nat>, node: Json, leaf: Json -> bool) {
    if !GroupAt(node, |path|) then leaf(node)
    else if Get(node, OperatorKey) == JString("OR") then
      exists i: nat :: i < |Children(node)| && path + [i] in nodes
    else
      forall i: nat :: i < |Children(node)| ==> path + [i] in nodes
  }

  /** The root is chosen, and every chosen position is accounted for. */
  ghost predicate Certifies(root: Json, nodes: iset<seq<nat>>, leaf: Json -> bool) {
    && [] in nodes
    && forall path, node | path in nodes && Reaches(root, 0, path, node) :: Accounted(nodes, path, node, leaf)
  }

  /** A compound rule holds when some choice certifies it, a flat one when its hash does. */
  ghost predicate Holds(c: Json, leaf: Json -> bool) {
    if Compound(c) then exists nodes :: Certifies(c, nodes, leaf) else leaf(c)
  }

  /** A leaf of the rule as stored. */
  ghost predicate LeafOf(c: Json, node: Json) {
    if Compound(c) then exists path :: Reaches(c, 0, path, node) && !GroupAt(node, |path|) else node == c
  }

  predicate Readable(node: Json, depth: nat) {
    node.JObject? && (GroupAt(node, depth) ==> Supported(node, depth))
  }

  predicate IsTrue(node: Json, depth: nat, leaf: Json -> bool)
    requires Readable(node, depth)
  {
    if GroupAt(node, depth) then EvaluateGroup(node, depth, leaf) else leaf(node)
  }

  lemma {:induction false} ReachesChild(j: Json, depth: nat, path: seq<nat>, node: Json, i: nat)
    requires Reaches(j, depth, path, node) && GroupAt(node, depth + |path|) && i < |Children(node)|
    ensures Reaches(j, depth, path + [i], Children(node)[i])
    decreases path
  {
    if path == [] {
      assert [i][1..] == [];
      assert path + [i] == [i];
    } else {
      assert (path + [i])[1..] == path[1..] + [i];
      ReachesChild(Children(j)[path[0]], depth + 1, path[1..], node, i);
    }
  }

  lemma {:induction false} ReachesOne(j: Json, depth: nat, path: seq<nat>, node: Json, other: Json)
    requires Reaches(j, depth, path, node) && Reaches(j, depth, path, other)
    ensures node == other
    decreases path
  {
    if path == [] {
    } else {
      ReachesOne(Children(j)[path[0]], depth + 1, path[1..], node, other);
    }
  }

  lemma {:induction false} ReachedIsReadable(j: Json, depth: nat, path: seq<nat>, node: Json)
    requires Readable(j, depth) && Reaches(j, depth, path, node)
    ensures Readable(node, depth + |path|)
    decreases path
  {
    if path == [] {
    } else {
      var child := Children(j)[path[0]];
      assert child in Children(j);
      ReachedIsReadable(child, depth + 1, path[1..], node);
    }
  }

  lemma {:induction false} CertifiedIsTrue(
    root: Json, nodes: iset<seq<nat>>, leaf: Json -> bool, path: seq<nat>, node: Json)
    requires Certifies(root, nodes, leaf) && path in nodes && Reaches(root, 0, path, node) && Readable(node, |path|)
    ensures IsTrue(node, |path|, leaf)
    decreases node
  {
    assert Accounted(nodes, path, node, leaf);
    if GroupAt(node, |path|) {
      var cs := Children(node);
      forall i: nat | i < |cs| && path + [i] in nodes ensures EvaluateNode(cs[i], |path| + 1, leaf) {
        assert cs[i] in cs;
        ReachesChild(root, 0, path, node, i);
        CertifiedIsTrue(root, nodes, leaf, path + [i], cs[i]);
      }
      if Get(node, OperatorKey) == JString("OR") {
        var i: nat :| i < |cs| && path + [i] in nodes;
        assert cs[i] in cs;
      } else {
        forall c | c in cs ensures EvaluateNode(c, |path| + 1, leaf) {
          var i: nat :| i < |cs| && cs[i] == c;
        }
      }
    }
  }

  ghost predicate TrueAt(root: Json, leaf: Json -> bool, path: seq<nat>, node: Json) {
    Reaches(root, 0, path, node) && Readable(node, |path|) && IsTrue(node, |path|, leaf)
  }

  ghost predicate IsTrueAt(root: Json, leaf: Json -> bool, path: seq<nat>) {
    exists node :: TrueAt(root, leaf, path, node)
  }

  /** The positions whose nodes are true. */
  ghost function TrueNodes(root: Json, leaf: Json -> bool): iset<seq<nat>> {
    iset path: seq<nat> | IsTrueAt(root, leaf, path)
  }

  lemma ChildIsTrue(node: Json, depth: nat, leaf: Json -> bool, c: Json)
    requires Readable(node, depth) && GroupAt(node, depth) && c in Children(node)
    requires EvaluateNode(c, depth + 1, leaf)
    ensures Readable(c, depth + 1) && IsTrue(c, depth + 1, leaf)
  {
  }

  lemma TrueIsChosen(root: Json, leaf: Json -> bool, path: seq<nat>, depth: nat, node: Json)
    requires Reaches(root, 0, path, node) && depth == |path| && Readable(node, depth) && IsTrue(node, depth, leaf)
    ensures path in TrueNodes(root, leaf)
  {
    assert TrueAt(root, leaf, path, node);
  }

  lemma TrueChildIsChosen(root: Json, leaf: Json -> bool, path: seq<nat>, node: Json, i: nat, c: Json)
    requires Reaches(root, 0, path, node) && Readable(node, |path|) && GroupAt(node, |path|)
    requires i < |Children(node)| && c == Children(node)[i] && c in Children(node)
    requires EvaluateNode(c, |path| + 1, leaf)
    ensures path + [i] in TrueNodes(root, leaf)
  {
    ReachesChild(root, 0, path, node, i);
    ChildIsTrue(node, |path|, leaf, c);
    TrueIsChosen(root, leaf, path + [i], |path| + 1, c);
  }

  lemma TrueIsAccounted(root: Json, leaf: Json -> bool, path: seq<nat>, node: Json)
    requires Reaches(root, 0, path, node) && Readable(node, |path|) && IsTrue(node, |path|, leaf)
    ensures Accounted(TrueNodes(root, leaf), path, node, leaf)
  {
    if GroupAt(node, |path|) {
      var cs := Children(node);
      if Get(node, OperatorKey) == JString("OR") {
        var c :| c in cs && EvaluateNode(c, |path| + 1, leaf);
        var i: nat :| i < |cs| && cs[i] == c;
        TrueChildIsChosen(root, leaf, path, node, i, c);
      } else {
        forall i: nat | i < |cs| ensures path + [i] in TrueNodes(root, leaf) {
          assert cs[i] in cs;
          TrueChildIsChosen(root, leaf, path, node, i, cs[i]);
        }
      }
    }
  }

  /** A supported tree is true exactly when some choice of nodes certifies it. */
  lemma TrueIffCertified(root: Json, leaf: Json -> bool)
    requires Supported(root, 0)
    ensures EvaluateGroup(root, 0, leaf) <==> exists nodes :: Certifies(root, nodes, leaf)
  {
    assert Reaches(root, 0, [], root) && Readable(root, 0);
    if EvaluateGroup(root, 0, leaf) {
      var nodes := TrueNodes(root, leaf);
      assert TrueAt(root, leaf, [], root);
      forall path, node | path in nodes && Reaches(root, 0, path, node) ensures Accounted(nodes, path, node, leaf) {
        var other :| TrueAt(root, leaf, path, other);
        ReachesOne(root, 0, path, node, other);
        TrueIsAccounted(root, leaf, path, node);
      }
      assert Certifies(root, nodes, leaf);
    }
    if nodes :| Certifies(root, nodes, leaf) {
      CertifiedIsTrue(root, nodes, leaf, [], root);
    }
  }

  /** The evaluator reads a normalized rule as the stored one holds, for every decision about leaves. */
  lemma NormalizationKeepsMeaning(c: Json, leaf: Json -> bool)
    requires Supported(Normalized(c), 0)
    ensures Normalized(Normalized(c)) == Normalized(c)
    ensures !(c.JObject? && Given(c, OperatorKey)) ==>
              && Normalized(c).JObject? && Normalized(c).fields.Keys == {OperatorKey, ConditionsKey}
              && Normalized(c).fields[OperatorKey] == JString("AND")
              && Normalized(c).fields[ConditionsKey] == JArray([c])
    ensures EvaluateGroup(Normalized(c), 0, leaf) <==> Holds(c, leaf)
  {
    if c.JObject? { GroupTestsIff(c, 0); }
    if Compound(c) {
      TrueIffCertified(c, leaf);
    } else {
      var n := Normalized(c);
      assert Children(n) == [c];
      assert c in Children(n);
      OperatorsArePresent(JString("AND"));
      if c.JObject? { OperatorsArePresent(Get(c, OperatorKey)); }
    }
  }

  /** Only the rule's leaves matter, and a rule that holds keeps holding when more of them do. */
  lemma MoreLeavesKeepItTrue(c: Json, leaf: Json -> bool, more: Json -> bool)
    requires Supported(Normalized(c), 0)
    requires forall node | LeafOf(c, node) :: leaf(node) ==> more(node)
    ensures EvaluateGroup(Normalized(c), 0, leaf) ==> EvaluateGroup(Normalized(c), 0, more)
  {
    NormalizationKeepsMeaning(c, leaf);
    NormalizationKeepsMeaning(c, more);
    if Compound(c) && Holds(c, leaf) {
      var nodes :| Certifies(c, nodes, leaf);
      forall path, node | path in nodes && Reaches(c, 0, path, node) ensures Accounted(nodes, path, node, more) {
        assert Accounted(nodes, path, node, leaf);
        assert !GroupAt(node, |path|) ==> LeafOf(c, node);
      }
      assert Certifies(c, nodes, more);
    }
  }

  /** Every leaf decided the same way decides the group: groups are never empty. */
  lemma {:induction false} UniformLeavesDecide(j: Json, depth: nat, leaf: Json -> bool, b: bool)
    requires Supported(j, depth) && (depth == 0 || IsGroup(j))
    requires forall path, node | Reaches(j, depth, path, node) && path != [] && !IsGroup(node) :: leaf(node) == b
    ensures EvaluateGroup(j, depth, leaf) == b
    decreases j
  {
    var below := depth + 1;
    forall i | 0 <= i < |Children(j)| ensures EvaluateNode(Children(j)[i], below, leaf) == b {
      var c := Children(j)[i];
      assert c in Children(j);
      if IsGroup(c) {
        forall path, node | Reaches(c, below, path, node) && path != [] && !IsGroup(node)
          ensures leaf(node) == b
        {
          assert ([i] + path)[1..] == path;
          assert Reaches(j, depth, [i] + path, node);
        }
        UniformLeavesDecide(c, below, leaf, b);
      } else {
        assert [i][1..] == [] && Reaches(c, below, [], c);
        assert Reaches(j, depth, [i], c);
      }
    }
    assert Children(j) != [] && Children(j)[0] in Children(j);
  }
}
