/**
 * Values shared by the weaving pipeline: an optional value and the record
 * a rule leaves behind when it changes a file.
 */
module Weaving {

  datatype Option<T> = None | Some(value: T)

  /** One applied change: the (1-based) line of the changed site and the identifier of the rule. */
  datatype Weave = Weave(line: int, ruleId: string)
}
