/**
 * The verb invocation typed after the pattern.
 *
 * Its own grammar (verb name and arguments) is not part of this model: an
 * invocation is identified with the text it is parsed from, and nothing in
 * the model looks inside it.
 */
module Invocations {

  datatype VerbInvocation = VerbInvocation(source: string)

  /** Parses the text captured after the separator. */
  function Parse(text: string): VerbInvocation {
    VerbInvocation(text)
  }
}
