/**
 * The stored query of a hysteresis expression (pkg/expr/threshold.go): between two evaluations
 * the loaded dimensions are written into it, and it is parsed again.
 */
module HysteresisQuery {
  import opened Basics
  import opened Fingerprints
  import opened Hysteresis
  import opened Nodes

  /** An element of the list of conditions; unloadKey: the object has a field for the unload evaluator, null or not. */
  datatype RawCondition = NotAnObject | Object(condition: Condition, unloadKey: bool)

  datatype RawConditions = Missing | NotAList | Array(items: seq<RawCondition>)

  datatype SetError =
    | UnknownType
    | NotAThreshold
    | MissingConditions
    | ConditionsNoList
    | NotOneElement
    | ElementNoObject
    | NotHysteresis

  /** A query as a map of properties. A missing or unknown expression type reads as None. */
  class RawQuery {
    const commandType: Option<CommandType>
    const expression: string
    var conditions: RawConditions

    constructor (commandType: Option<CommandType>, expression: string, conditions: RawConditions)
      ensures this.commandType == commandType && this.expression == expression && this.conditions == conditions
    {
      this.commandType := commandType;
      this.expression := expression;
      this.conditions := conditions;
    }

    /** The one condition is an object that mentions an unload evaluator. */
    predicate IsHysteresisExpression()
      reads this
    {
      && commandType == Some(TypeThreshold)
      && conditions.Array? && |conditions.items| == 1
      && conditions.items[0].Object? && conditions.items[0].unloadKey
    }

    function TheCondition(): Condition
      requires IsHysteresisExpression()
      reads this
    {
      conditions.items[0].condition
    }

    /** The query is the textual form of command h. */
    ghost predicate Describes(refID: string, h: HysteresisCommand)
      reads this
    {
      && IsHysteresisExpression() && expression != ""
      && var c := TheCondition();
         && c.unload.Some? && h.Valid() && h.refID == refID && h.referenceVar == expression
         && h.loading == ThresholdOf(refID, expression, c.evaluator, false)
         && h.unloading == ThresholdOf(refID, expression, c.unload.value, true)
         && Brings(c, h.loaded)
    }

    /** SetLoadedDimensionsToHysteresisCommand: writes to the one condition, or to nothing at all. */
    method SetLoadedDimensions(fingerprints: set<Fingerprint>) returns (err: Option<SetError>)
      modifies this
      ensures err.None? <==> commandType == Some(TypeThreshold) && exists c: Condition :: old(conditions) == Array([Object(c, true)])
      ensures err.Some? ==> conditions == old(conditions)
      ensures err.None? ==>
        && IsHysteresisExpression() && TheCondition().loadedDimensions.Some?
        && TheCondition() == old(TheCondition()).(loadedDimensions := TheCondition().loadedDimensions)
        && Carries(TheCondition().loadedDimensions.value, fingerprints)
    {
      if commandType.None? {
        return Some(UnknownType);
      }
      if commandType.value != TypeThreshold {
        return Some(NotAThreshold);
      }
      match conditions
      case Missing => return Some(MissingConditions);
      case NotAList => return Some(ConditionsNoList);
      case Array(items) =>
        if |items| != 1 {
          return Some(NotOneElement);
        }
        if items[0].NotAnObject? {
          return Some(ElementNoObject);
        }
        if !items[0].unloadKey {
          return Some(NotHysteresis);
        }
        var fr := ToFrame(fingerprints);
        conditions := Array([items[0].(condition := items[0].condition.(loadedDimensions := Some(fr)))]);
        return None;
    }

    /** Parsing a query gives the command it describes. */
    method Parse(refID: string, ghost h: HysteresisCommand) returns (command: HysteresisCommand)
      requires Describes(refID, h)
      ensures command == h
    {
      var config := Config(expression, [TheCondition()]);
      var r := Unmarshal(refID, config, true);
      command := r.value.hysteresis;
      assert command.loaded == h.loaded;
    }

    /** After new dimensions are set the query describes the same command with these dimensions loaded. */
    method Reload(refID: string, ghost h: HysteresisCommand, fingerprints: set<Fingerprint>)
      requires Describes(refID, h)
      modifies this
      ensures Describes(refID, h.(loaded := fingerprints))
    {
      var err := SetLoadedDimensions(fingerprints);
      assert err.None?;
    }
  }
}
