/** `Attribute::to_tokens`: each attribute appends one group of generated
    code to the token stream. The generated code is kept abstract as one
    instruction per group, carrying what the group depends on. */
module Lowering {
  import opened Names
  import opened Directives

  /** `JsPropertyType`: how a bound property's value travels between the
      signal and the DOM. */
  datatype ValueKind = BoolKind | StringKind

  /** One row of the two-way binding table: the DOM event that reports a
      change of the property, and the kind of its value. */
  datatype Binding = Binding(event: string, kind: ValueKind)

  datatype Option<T> = None | Some(value: T)

  /** The bind property table: `value` is a string reported by `input`,
      `checked` a boolean reported by `change`; nothing else is supported. */
  function BindProperty(prop: string): Option<Binding>
  {
    if prop == "value" then Some(Binding("input", StringKind))
    else if prop == "checked" then Some(Binding("change", BoolKind))
    else None
  }

  /** The diagnostic for a property the table does not know. */
  function UnsupportedBindMessage(prop: string): string
  {
    "property `" + prop + "` is not supported with bind:"
  }

  /** One group of generated code. */
  datatype Instr =
      /** An effect that sets the DOM attribute `name` to the formatted
          value of `expr` whenever it changes. */
    | EffectSetAttribute(name: string, expr: string)
      /** A (non-reactive) listener for `event` whose handler is `expr`. */
    | RegisterEvent(event: string, expr: string)
      /** The signal `expr`, typed by `kind`; an effect that sets the DOM
          property `prop` from it; and a listener for `event` that writes
          the target's `prop` back into the signal. */
    | BindGroup(prop: string, event: string, kind: ValueKind, expr: string)
      /** `NodeRef::set(&expr, _el)`. */
    | NodeRefSet(expr: string)
      /** A compile error with this message in place of any code. */
    | CompileError(message: string)

  /** The group appended for an attribute. */
  function Lowered(a: Attribute): Instr
  {
    match a.ty
    case DomAttribute(name) => EffectSetAttribute(NameString(name), a.expr)
    case Event(event) => RegisterEvent(event, a.expr)
    case Bind(prop) =>
      (match BindProperty(prop)
       case Some(Binding(event, kind)) => BindGroup(prop, event, kind, a.expr)
       case None => CompileError(UnsupportedBindMessage(prop)))
    case Ref => NodeRefSet(a.expr)
  }

  /** The generated code, as the sequence of groups appended so far. */
  class TokenStream {
    var instrs: seq<Instr>

    constructor ()
      ensures instrs == []
    {
      instrs := [];
    }

    /** `tokens.extend(...)`: append one group, keep what is there. */
    method Extend(g: Instr)
      modifies this
      ensures instrs == old(instrs) + [g]
    {
      instrs := instrs + [g];
    }
  }

  /** `ToTokens::to_tokens`, as written: match on the directive; the bind
      case looks the property up first and on a miss appends the error and
      returns early. */
  method ToTokens(a: Attribute, tokens: TokenStream)
    modifies tokens
    ensures tokens.instrs == old(tokens.instrs) + [Lowered(a)]
  {
    match a.ty
    case DomAttribute(name) =>
      var s := DisplayName(name);
      tokens.Extend(EffectSetAttribute(s, a.expr));
    case Event(event) =>
      tokens.Extend(RegisterEvent(event, a.expr));
    case Bind(prop) =>
      var row := BindProperty(prop);
      if row.None? {
        tokens.Extend(CompileError(UnsupportedBindMessage(prop)));
        return;
      }
      var Binding(eventName, propertyTy) := row.value;
      tokens.Extend(BindGroup(prop, eventName, propertyTy, a.expr));
    case Ref =>
      tokens.Extend(NodeRefSet(a.expr));
  }

  // ------------------------------------------------------------- properties

  /** The table is closed: exactly `value` and `checked` are supported, each
      with its own event and kind. */
  lemma BindPropertyTable(prop: string)
    ensures BindProperty(prop) == Some(Binding("input", StringKind)) <==> prop == "value"
    ensures BindProperty(prop) == Some(Binding("change", BoolKind)) <==> prop == "checked"
    ensures BindProperty(prop).None? <==> prop != "value" && prop != "checked"
  {
  }

  /** Every attribute lowers to the group of its own form, and only the
      bind of an unsupported property lowers to an error, whose message
      names the property. */
  lemma LoweredForm(a: Attribute)
    ensures Lowered(a).EffectSetAttribute? <==> a.ty.DomAttribute?
    ensures Lowered(a).RegisterEvent? <==> a.ty.Event?
    ensures Lowered(a).NodeRefSet? <==> a.ty.Ref?
    ensures Lowered(a).BindGroup? <==> a.ty.Bind? && BindProperty(a.ty.prop).Some?
    ensures Lowered(a).CompileError? <==> a.ty.Bind? && BindProperty(a.ty.prop).None?
    ensures Lowered(a).CompileError? ==> Lowered(a).message == UnsupportedBindMessage(a.ty.prop)
  {
  }

  /** Every code group carries the attribute's expression as written. */
  lemma LoweredKeepsExpr(a: Attribute)
    ensures !Lowered(a).CompileError? ==> Lowered(a).expr == a.expr
  {
  }

  /** A supported binding listens on the table's event, with the table's
      kind, for the property as written. */
  lemma LoweredBinding(a: Attribute)
    requires a.ty.Bind? && BindProperty(a.ty.prop).Some?
    ensures Lowered(a).prop == a.ty.prop
    ensures Binding(Lowered(a).event, Lowered(a).kind) == BindProperty(a.ty.prop).value
  {
  }

  /** The attribute the effect sets is named by the dashed display of the
      parsed name, and that string splits back into the tag and segments. */
  lemma LoweredAttributeName(a: Attribute)
    requires a.ty.DomAttribute?
    requires DashFree(a.ty.name.tag)
    requires forall i :: 0 <= i < |a.ty.name.extended| ==> DashFree(a.ty.name.extended[i])
    ensures Lowered(a).name == NameString(a.ty.name)
    ensures SplitDash(Lowered(a).name) == [a.ty.name.tag] + a.ty.name.extended
  {
    SplitDisplay(a.ty.name);
  }
}
