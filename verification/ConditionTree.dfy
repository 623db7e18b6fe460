/** Correlation-rule conditions: validating, normalizing and evaluating unbounded AND/OR trees. */
module ConditionTree {
  import opened JsonValues
  import opened ErrorPaths

  function ValidSignalTypes(): seq<string> {
    ["aircraft_position", "vessel_position", "seismic_event", "gps_jamming",
     "wildfire", "ais_gap", "conflict_event", "disaster_alert"]
  }

  function ValidOperators(): seq<string> {
    ["AND", "OR"]
  }

  const MAX_DEPTH := 5

  datatype Fault =
    | Blank
    | TooDeep
    | BadOperator
    | TooFewConditions
    | NotAHash
    | UnknownSignalType(value: Json)
    | BadProximity
    | BadCount
    | BadWindow
    | BadMagnitude

  /** An error on :conditions; `prefix` renders the position of the node it concerns. */
  datatype Error = Error(prefix: string, fault: Fault)

  /** The word a message starts with, after the position. */
  function Subject(fault: Fault): string {
    match fault
    case Blank => "can't"
    case TooDeep => "nesting"
    case BadOperator => "operator"
    case TooFewConditions => "compound"
    case NotAHash => " must"
    case UnknownSignalType(_) => "signal_type"
    case BadProximity => "proximity_km"
    case BadCount => "count_threshold"
    case BadWindow => "time_window_minutes"
    case BadMagnitude => "magnitude_min"
  }

  /** The position as it stands in a message: "conditions[i] must be a hash" has no dot after it. */
  function Position(e: Error): string {
    if e.fault.NotAHash? && e.prefix != [] then e.prefix[..|e.prefix| - 1] else e.prefix
  }

  /** The message as users see it; `wording` is the rest of the sentence, which may quote the offending value. */
  function Message(wording: Fault -> string, e: Error): string {
    Position(e) + (Subject(e.fault) + wording(e.fault))
  }

  // ── Shapes ─────────────────────────────────────────────────────────────────

  /** A child is validated and evaluated as a group when it has an operator or a "conditions" key. */
  predicate IsGroup(j: Json) {
    j.JObject? && (Present(Get(j, OperatorKey)) || ConditionsKey in j.fields)
  }

  /** At the root, only the operator decides. */
  predicate Compound(j: Json) {
    j.JObject? && Present(Get(j, OperatorKey))
  }

  predicate ValidOperator(j: Json)
    requires j.JObject?
  {
    OneOf(Get(j, OperatorKey), ValidOperators())
  }

  /** The array under "conditions", when there is one. */
  function Children(j: Json): (cs: seq<Json>)
    ensures forall c <- cs :: c < j
  {
    if j.JObject? && ConditionsKey in j.fields && j.fields[ConditionsKey].JArray?
    then j.fields[ConditionsKey].elems
    else []
  }

  predicate HasArray(j: Json)
    requires j.JObject?
  {
    Get(j, ConditionsKey).JArray?
  }

  // ── The errors a tree produces ─────────────────────────────────────────────

  function Check(failed: bool, prefix: string, fault: Fault): seq<Error> {
    if failed then [Error(prefix, fault)] else []
  }

  predicate Fails(value: Json, inRange: bool) {
    Present(value) && !inRange
  }

  function LeafErrors(j: Json, prefix: string): seq<Error>
    requires j.JObject?
  {
    var st, pkm := Get(j, SignalTypeKey), Get(j, ProximityKmKey);
    var ct, tw := Get(j, CountThresholdKey), Get(j, TimeWindowMinutesKey);
    var mm := Get(j, MagnitudeMinKey);
    Check(Fails(st, OneOf(st, ValidSignalTypes())), prefix, UnknownSignalType(st))
    + Check(Fails(pkm, NonNegativeNumber(pkm)), prefix, BadProximity)
    + Check(Fails(ct, PositiveInteger(ct)), prefix, BadCount)
    + Check(Fails(tw, PositiveInteger(tw)), prefix, BadWindow)
    + Check(Fails(mm, NonNegativeNumber(mm)), prefix, BadMagnitude)
  }

  function GroupErrors(j: Json, prefix: string, depth: nat): seq<Error>
    requires j.JObject?
    decreases j, 1, 0
  {
    if depth > MAX_DEPTH then [Error(prefix, TooDeep)]
    else if !ValidOperator(j) then [Error(prefix, BadOperator)]
    else if !(HasArray(j) && |Children(j)| >= 2) then [Error(prefix, TooFewConditions)]
    else ChildErrors(j, |Children(j)|, prefix, depth)
  }

  /** The errors of the first `n` children. */
  function ChildErrors(j: Json, n: nat, prefix: string, depth: nat): seq<Error>
    requires n <= |Children(j)|
    decreases j, 0, n
  {
    if n == 0 then []
    else ChildErrors(j, n - 1, prefix, depth) + NodeErrors(Children(j)[n - 1], prefix + Segment(n - 1), depth + 1)
  }

  function NodeErrors(j: Json, prefix: string, depth: nat): seq<Error>
    decreases j, 2, 0
  {
    if !j.JObject? then [Error(prefix, NotAHash)]
    else if IsGroup(j) then GroupErrors(j, prefix, depth)
    else LeafErrors(j, prefix)
  }

  /** Everything the model adds on :conditions: the presence check and conditions_schema. */
  function ConditionsErrors(c: Json): seq<Error> {
    Check(!Present(c), "", Blank)
    + (if !c.JObject? then []
       else if Compound(c) then GroupErrors(c, "", 0)
       else LeafErrors(c, ""))
  }

  // ── The validator ──────────────────────────────────────────────────────────

  /** A rule under validation, accumulating errors as the model does. */
  class CorrelationRule {
    const conditions: Json
    var errors: seq<Error>

    constructor (conditions: Json)
      ensures this.conditions == conditions && errors == []
    {
      this.conditions := conditions;
      errors := [];
    }

    method Add(prefix: string, fault: Fault)
      modifies this`errors
      ensures errors == old(errors) + [Error(prefix, fault)]
    {
      errors := errors + [Error(prefix, fault)];
    }

    /** Adds a fault when its check failed; `added` collects what came after `before`. */
    method AddIf(failed: bool, prefix: string, fault: Fault, ghost before: seq<Error>, ghost added: seq<Error>)
      returns (ghost sum: seq<Error>)
      requires errors == before + added
      modifies this`errors
      ensures sum == added + Check(failed, prefix, fault)
      ensures errors == before + sum
    {
      if failed { Add(prefix, fault); }
      sum := added + Check(failed, prefix, fault);
      ConcatenationAssociates(before, added, Check(failed, prefix, fault));
    }

    method ValidateConditions()
      modifies this`errors
      ensures errors == old(errors) + ConditionsErrors(conditions)
    {
      if !Present(conditions) { Add("", Blank); }
      if conditions.JObject? {
        if Compound(conditions) {
          ValidateGroup(conditions, "", 0);
        } else {
          ValidateSingleCondition(conditions, "");
        }
      }
    }

    method ValidateGroup(group: Json, prefix: string, depth: nat)
      requires group.JObject?
      modifies this`errors
      ensures errors == old(errors) + GroupErrors(group, prefix, depth)
      decreases group
    {
      if depth > MAX_DEPTH {
        Add(prefix, TooDeep);
        return;
      }
      if !ValidOperator(group) {
        Add(prefix, BadOperator);
        return;
      }
      var conds := Children(group);
      if !(HasArray(group) && |conds| >= 2) {
        Add(prefix, TooFewConditions);
        return;
      }
      for i := 0 to |conds|
        invariant errors == old(errors) + ChildErrors(group, i, prefix, depth)
      {
        var cond := conds[i];
        var position := prefix + Segment(i);
        ConcatenationAssociates(
          old(errors), ChildErrors(group, i, prefix, depth), NodeErrors(cond, position, depth + 1));
        if !cond.JObject? {
          Add(position, NotAHash);
        } else if Present(Get(cond, OperatorKey)) || ConditionsKey in cond.fields {
          ValidateGroup(cond, position, depth + 1);
        } else {
          ValidateSingleCondition(cond, position);
        }
      }
    }

    method ValidateSingleCondition(cond: Json, prefix: string)
      requires cond.JObject?
      modifies this`errors
      ensures errors == old(errors) + LeafErrors(cond, prefix)
    {
      var st, pkm := Get(cond, SignalTypeKey), Get(cond, ProximityKmKey);
      var ct, tw := Get(cond, CountThresholdKey), Get(cond, TimeWindowMinutesKey);
      var mm := Get(cond, MagnitudeMinKey);
      ghost var before, added := errors, [];
      added := AddIf(Fails(st, OneOf(st, ValidSignalTypes())), prefix, UnknownSignalType(st), before, added);
      added := AddIf(Fails(pkm, NonNegativeNumber(pkm)), prefix, BadProximity, before, added);
      added := AddIf(Fails(ct, PositiveInteger(ct)), prefix, BadCount, before, added);
      added := AddIf(Fails(tw, PositiveInteger(tw)), prefix, BadWindow, before, added);
      added := AddIf(Fails(mm, NonNegativeNumber(mm)), prefix, BadMagnitude, before, added);
    }
  }
}
