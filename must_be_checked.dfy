/**
 * MustBeCheckedAttribute: a validation attribute for a check box that must be ticked, on the
 * server (IsValid) and in the browser (the data-val attributes AddValidation emits).
 */
module MustBeChecked {
  import opened Wrappers

  /** The object handed to IsValid. */
  datatype Value = Null | Bool(b: bool) | Other(typeName: string)

  /** ValidationResult.Success is null; any other result carries its error message. */
  datatype ValidationResult = Success | Failure(errorMessage: string)

  const DefaultErrorMessage: string := "You must tick this"

  /** ClientModelValidationContext: the HTML attributes of the element being rendered. */
  class ClientModelValidationContext {
    var attributes: map<string, string>

    constructor(attributes: map<string, string>)
      ensures this.attributes == attributes
    {
      this.attributes := attributes;
    }
  }

  /** The dictionary after MergeAttribute: the key added with the value unless already present. */
  function Merged(attributes: map<string, string>, key: string, value: string): (r: map<string, string>)
    ensures r.Keys == attributes.Keys + {key}
    ensures forall k :: k in attributes ==> r[k] == attributes[k]
    ensures key !in attributes ==> r[key] == value
  {
    if key in attributes then attributes else attributes[key := value]
  }

  /** The attribute, with the ErrorMessage it was configured with (null by default). */
  class MustBeCheckedAttribute {
    const errorMessage: Option<string>

    constructor(errorMessage: Option<string>)
      ensures this.errorMessage == errorMessage
    {
      this.errorMessage := errorMessage;
    }

    /** The message shown when the box is not ticked. */
    function Message(): (m: string) {
      errorMessage.GetOr(DefaultErrorMessage)
    }

    /** IsValid(object): only the boolean true is valid; null, false and any other object are not. */
    predicate IsValid(value: Value)
      ensures IsValid(value) <==> value == Bool(true)
    {
      value.Bool? && value.b
    }

    /** IsValid(object, ValidationContext): Success for the boolean true, otherwise a result with
        the configured message or the default one. */
    function IsValidInContext(value: Value): (r: ValidationResult)
      ensures r.Success? <==> IsValid(value)
      ensures r.Failure? ==> r.errorMessage == Message()
      ensures errorMessage.None? && r.Failure? ==> r.errorMessage == "You must tick this"
    {
      if value.Bool? && value.b then Success else Failure(Message())
    }

    /** MergeAttribute: adds key -> value and answers true, unless the key is there already, in which
        case nothing changes and the answer is false. */
    method MergeAttribute(context: ClientModelValidationContext, key: string, value: string) returns (added: bool)
      modifies context
      ensures added <==> key !in old(context.attributes)
      ensures context.attributes == Merged(old(context.attributes), key, value)
    {
      if key in context.attributes {
        return false;
      }
      context.attributes := context.attributes[key := value];
      return true;
    }

    /** AddValidation: a null context throws; otherwise data-val and data-val-mustbechecked are
        merged in. */
    method AddValidation(context: ClientModelValidationContext?) returns (r: Result<()>)
      modifies context
      ensures context == null ==> r == Err(ArgumentNull("context"))
      ensures context != null ==>
        && r.Ok?
        && context.attributes == ValidationAttributes(old(context.attributes), Message())
    {
      if context == null {
        return Err(ArgumentNull("context"));
      }
      var _ := MergeAttribute(context, "data-val", "true");
      var _ := MergeAttribute(context, "data-val-mustbechecked", Message());
      return Ok(());
    }
  }

  /** The attributes AddValidation leaves: both data-val entries merged in. */
  function ValidationAttributes(attributes: map<string, string>, message: string): map<string, string> {
    Merged(Merged(attributes, "data-val", "true"), "data-val-mustbechecked", message)
  }

  /** After AddValidation both entries are present, entries already there keep their values, the
      new ones carry "true" and the message, and nothing else is added. */
  lemma ValidationAttributesSpec(attributes: map<string, string>, message: string)
    ensures var r := ValidationAttributes(attributes, message);
      && r.Keys == attributes.Keys + {"data-val", "data-val-mustbechecked"}
      && (forall k :: k in attributes ==> r[k] == attributes[k])
      && ("data-val" !in attributes ==> r["data-val"] == "true")
      && ("data-val-mustbechecked" !in attributes ==> r["data-val-mustbechecked"] == message)
  {
    assert "data-val" != "data-val-mustbechecked";
  }

  /** Rendering twice changes nothing the first rendering wrote. */
  lemma ValidationAttributesIdempotent(attributes: map<string, string>, message: string, other: string)
    ensures ValidationAttributes(ValidationAttributes(attributes, message), other) == ValidationAttributes(attributes, message)
  {
  }
}
