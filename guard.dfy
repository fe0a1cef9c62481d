/// Argument checks (Sys/Guard.cs). A check either passes or names the
/// exception the C# code throws.
module Guard {
  import opened Wrappers
  import opened Text

  /// The exceptions the checks throw, with the properties they are built
  /// from; a missing message is the runtime's default text.
  datatype GuardError =
    | ArgumentNullException(paramName: string, nullMessage: Option<string>)
    | ArgumentException(message: string)

  /// `name` when it holds a non-white-space character, otherwise `fallback`.
  function NameOr(name: Option<string>, fallback: string): string {
    if !IsNullOrWhiteSpace(name) then name.value else fallback
  }

  /// Guard.ArgumentNotNull: `defaultValue` is default(T), so for a
  /// reference type it is null.
  function ArgumentNotNull<T(==)>(argument: T, defaultValue: T, argumentName: string): (r: Outcome<GuardError>)
    ensures r.Pass? <==> argument != defaultValue
    ensures r.Fail? ==> r.error == ArgumentNullException("argument", Some(argumentName + " isn't defined"))
  {
    if argument == defaultValue then
      Fail(ArgumentNullException("argument", Some(argumentName + " isn't defined")))
    else
      Pass
  }

  /// Guard.ArgumentNotEmpty.
  function ArgumentNotEmpty(argument: Option<string>, argumentName: Option<string>): (r: Outcome<GuardError>)
    ensures r.Pass? <==> argument.Some? && exists k :: 0 <= k < |argument.value| && !IsWhiteSpace(argument.value[k])
    ensures argument.None? ==> r == Fail(ArgumentNullException(NameOr(argumentName, "argument is null"), None))
    ensures argument.Some? && IsBlank(argument.value) ==> r == Fail(ArgumentException(NameOr(argumentName, "argument is empty")))
  {
    if IsNullOrWhiteSpace(argument) then
      if argument.None? then
        Fail(ArgumentNullException(NameOr(argumentName, "argument is null"), None))
      else
        Fail(ArgumentException(NameOr(argumentName, "argument is empty")))
    else
      Pass
  }

  /// Exception.Message of a failed check. An ArgumentException built from
  /// one string reports that string. An ArgumentNullException built from a
  /// parameter name reports the runtime's default text, or its own message,
  /// followed by the parameter name, as .NET Core 3.0 and later format it.
  function ErrorText(e: GuardError): string {
    match e
    case ArgumentNullException(paramName, message) =>
      var text := if message.Some? then message.value else "Value cannot be null.";
      if |paramName| == 0 then text else text + " (Parameter '" + paramName + "')"
    case ArgumentException(message) => message
  }

  /// A failed ArgumentNotEmpty reports the argument's name when that name is
  /// usable, and a fixed fallback text otherwise; for a null argument the
  /// name follows the runtime's null-argument text. Either way the text is
  /// not blank.
  lemma ArgumentNotEmptyText(argument: Option<string>, argumentName: Option<string>)
    requires ArgumentNotEmpty(argument, argumentName).Fail?
    ensures var text := ErrorText(ArgumentNotEmpty(argument, argumentName).error);
      var name := if !IsNullOrWhiteSpace(argumentName) then argumentName.value
                  else if argument.None? then "argument is null" else "argument is empty";
      (argument.None? ==> text == "Value cannot be null. (Parameter '" + name + "')")
      && (argument.Some? ==> text == name)
      && !IsBlank(text)
  {
    var text := ErrorText(ArgumentNotEmpty(argument, argumentName).error);
    if argument.None? {
      assert !IsWhiteSpace(text[0]);
    } else if IsNullOrWhiteSpace(argumentName) {
      assert !IsWhiteSpace(text[0]);
    } else {
      var k :| 0 <= k < |argumentName.value| && !IsWhiteSpace(argumentName.value[k]);
      assert !IsWhiteSpace(text[k]);
    }
  }
}
