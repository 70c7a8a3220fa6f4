/**
 * Templates: a template is text holding variables written between two
 * delimiters ("@name@"); binding replaces every occurrence of each variable
 * by its value, one binding after another.
 */
module Templates {
  import opened Wrappers
  import opened StringOps

  /** Templates.DEFAULT_DELIMITER. */
  const DEFAULT_DELIMITER: string := "@"

  /**
   * One entry of the bindings map, in the map's iteration order: the key's
   * text and the value's text, absent when the map holds null for the key.
   */
  datatype Binding = Binding(key: string, value: Option<string>)

  /** The IllegalStateException thrown for a key bound to null. */
  datatype BindError = NoValueBinding(key: string)

  function ErrorMessage(e: BindError): (r: string)
    ensures StartsWith(r, "No value binding for key: ")
    ensures r[|"No value binding for key: "|..] == e.key
  {
    "No value binding for key: " + e.key
  }

  /** The text a binding for `key` replaces: the key between two delimiters. */
  function Variable(key: string, delimiter: string): string {
    delimiter + key + delimiter
  }

  /**
   * The bindings applied left to right: each replaces every occurrence of
   * its variable in the text bound so far; the first binding without a value
   * aborts the whole instantiation.
   */
  function BindAll(text: string, bindings: seq<Binding>, delimiter: string): (r: Result<string, BindError>)
    ensures |bindings| == 0 ==> r == Success(text)
    ensures r.Failure? ==> exists i :: 0 <= i < |bindings| && bindings[i].value.None? && r.error == NoValueBinding(bindings[i].key)
    decreases |bindings|
  {
    if |bindings| == 0 then Success(text)
    else if bindings[0].value.None? then Failure(NoValueBinding(bindings[0].key))
    else BindAll(ReplaceAll(text, Variable(bindings[0].key, delimiter), bindings[0].value.value), bindings[1..], delimiter)
  }

  /**
   * The whole of Templates.bind: a null template gives null, null or empty
   * bindings give the template itself, and otherwise the bindings are applied.
   */
  function Instantiation(template: Option<string>, bindings: Option<seq<Binding>>, delimiter: string): (r: Result<Option<string>, BindError>)
    ensures r == Success(None) <==> template.None?
    ensures bindings.None? || |bindings.value| == 0 ==> r == Success(template)
    ensures r.Failure? ==> template.Some? && bindings.Some?
    ensures r.Failure? ==>
      exists i :: 0 <= i < |bindings.value| && bindings.value[i].value.None? && r.error == NoValueBinding(bindings.value[i].key)
  {
    if template.None? then Success(None)
    else if bindings.None? || |bindings.value| == 0 then Success(template)
    else
      match BindAll(template.value, bindings.value, delimiter)
      case Success(s) => Success(Some(s))
      case Failure(e) => Failure(e)
  }

  /** Templates.bind(template, bindings, delimiter). */
  method Bind(template: Option<string>, bindings: Option<seq<Binding>>, delimiter: string)
    returns (r: Result<Option<string>, BindError>)
    ensures r == Instantiation(template, bindings, delimiter)
  {
    if template.None? {
      return Success(None);
    }
    if bindings.None? || |bindings.value| == 0 {
      return Success(template);
    }
    var bs := bindings.value;
    var bound := template.value;
    var i := 0;
    while i < |bs|
      invariant 0 <= i <= |bs|
      invariant BindAll(template.value, bs, delimiter) == BindAll(bound, bs[i..], delimiter)
    {
      assert bs[i..][0] == bs[i] && bs[i..][1..] == bs[i + 1..];
      var key := bs[i].key;
      var pattern := delimiter + key + delimiter;
      if bs[i].value.None? {
        return Failure(NoValueBinding(key));
      }
      bound := ReplaceAll(bound, pattern, bs[i].value.value);
      i := i + 1;
    }
    return Success(Some(bound));
  }

  /** Templates.bind(template, bindings): binding with the default delimiter "@". */
  method BindDefault(template: Option<string>, bindings: Option<seq<Binding>>)
    returns (r: Result<Option<string>, BindError>)
    ensures r == Instantiation(template, bindings, DEFAULT_DELIMITER)
  {
    r := Bind(template, bindings, DEFAULT_DELIMITER);
  }

  /** Index of the first binding without a value, or |bindings| when every binding has one. */
  function FirstUnbound(bindings: seq<Binding>): (r: nat)
    ensures r <= |bindings|
    ensures forall i :: 0 <= i < r ==> bindings[i].value.Some?
    ensures r < |bindings| ==> bindings[r].value.None?
    decreases |bindings|
  {
    if |bindings| == 0 then 0
    else if bindings[0].value.None? then 0
    else 1 + FirstUnbound(bindings[1..])
  }

  /**
   * Binding fails exactly when some binding has no value, and then it names
   * the key of the first such binding, whatever the text.
   */
  lemma {:induction false} BindAllFailsOnFirstUnbound(text: string, bindings: seq<Binding>, delimiter: string)
    ensures BindAll(text, bindings, delimiter).Failure? <==> exists i :: 0 <= i < |bindings| && bindings[i].value.None?
    ensures BindAll(text, bindings, delimiter).Failure? ==>
      BindAll(text, bindings, delimiter).error == NoValueBinding(bindings[FirstUnbound(bindings)].key)
    decreases |bindings|
  {
    if |bindings| > 0 && bindings[0].value.Some? {
      var next := ReplaceAll(text, Variable(bindings[0].key, delimiter), bindings[0].value.value);
      BindAllFailsOnFirstUnbound(next, bindings[1..], delimiter);
      assert forall i :: 1 <= i < |bindings| ==> bindings[i] == bindings[1..][i - 1];
    }
  }

  /** Binding with `b1 + b2` is binding with `b1` and then binding the result with `b2`. */
  lemma {:induction false} BindAllSequential(text: string, b1: seq<Binding>, b2: seq<Binding>, delimiter: string)
    ensures BindAll(text, b1 + b2, delimiter) ==
      match BindAll(text, b1, delimiter)
      case Success(s) => BindAll(s, b2, delimiter)
      case Failure(e) => Failure(e)
    decreases |b1|
  {
    if |b1| == 0 {
      assert b1 + b2 == b2;
    } else {
      assert (b1 + b2)[0] == b1[0] && (b1 + b2)[1..] == b1[1..] + b2;
      if b1[0].value.Some? {
        var next := ReplaceAll(text, Variable(b1[0].key, delimiter), b1[0].value.value);
        BindAllSequential(next, b1[1..], b2, delimiter);
      }
    }
  }

  /** Text without the delimiter holds no variable: every fully-valued binding leaves it as it is. */
  lemma {:induction false} BindAllWithoutDelimiter(text: string, bindings: seq<Binding>, delimiter: string)
    requires |delimiter| > 0 && delimiter[0] !in text
    requires forall i :: 0 <= i < |bindings| ==> bindings[i].value.Some?
    ensures BindAll(text, bindings, delimiter) == Success(text)
    decreases |bindings|
  {
    if |bindings| > 0 {
      var v := Variable(bindings[0].key, delimiter);
      assert v[0] == delimiter[0];
      ReplaceAllAbsent(text, v, bindings[0].value.value);
      assert forall i :: 0 <= i < |bindings| - 1 ==> bindings[1..][i] == bindings[i + 1];
      BindAllWithoutDelimiter(text, bindings[1..], delimiter);
    }
  }

  /**
   * A variable between text that holds no delimiter is replaced by its value,
   * and the surrounding text is kept.
   */
  lemma BindOneVariable(before: string, key: string, value: string, after: string, delimiter: string)
    requires |delimiter| > 0 && delimiter[0] !in before && delimiter[0] !in after
    ensures BindAll(before + Variable(key, delimiter) + after, [Binding(key, Some(value))], delimiter)
      == Success(before + value + after)
  {
    var v := Variable(key, delimiter);
    assert v[0] == delimiter[0];
    assert before + v + after == before + (v + after);
    ReplaceAllSkip(before, v + after, v, value);
    ReplaceAllAtStart(after, v, value);
    ReplaceAllAbsent(after, v, value);
    var replaced := ReplaceAll(before + v + after, v, value);
    assert replaced == before + (value + after) == before + value + after;
    var bs := [Binding(key, Some(value))];
    assert bs[1..] == [];
    assert BindAll(before + v + after, bs, delimiter) == BindAll(replaced, [], delimiter);
  }

  /** The documented example: "Some text with a @variable@." bound with [variable: value]. */
  lemma DocumentedExample()
    ensures Instantiation(Some("Some text with a @variable@."), Some([Binding("variable", Some("value"))]), DEFAULT_DELIMITER)
      == Success(Some("Some text with a value."))
  {
    BindOneVariable("Some text with a ", "variable", "value", ".", "@");
    assert "Some text with a " + Variable("variable", "@") + "." == "Some text with a @variable@.";
    assert "Some text with a " + "value" + "." == "Some text with a value.";
  }
}
