/**
 * The form-wide `$params` array that every value, validator and action of a
 * yform form shares by reference, reduced to the entries the "empty" validator
 * and the "showtext" action read or write.
 */
module FormParams {
  import opened PhpArray

  class Params {
    /** `params['warning']`: form object id -> CSS class marking the field as invalid. */
    var warning: Arr<int, string>
    /** `params['warning_messages']`: form object id -> message shown for the field. */
    var warningMessages: Arr<int, string>
    /** `params['error_class']`: the CSS class a failed validation assigns. */
    var errorClass: string
    /** `params['output']`: the text the form shows after it was sent. */
    var output: string
    /** `params['value_pool']['email']`: field name -> submitted value, in form order. */
    var emailPool: Arr<string, string>

    /** The two warning arrays are well-formed PHP arrays. */
    ghost predicate Valid()
      reads this
    {
      warning.Valid() && warningMessages.Valid()
    }
  }
}
