/// The attribute reader of the tag search (the attributeResolver delegate of
/// Parsing/SearchEngine.cs): it takes the text of an opening tag after its
/// name, reads the attributes up to the first '>' into the tag's attribute
/// dictionary, and cuts the tag's Html down to what follows that '>'.
module Attributes {
  import opened Wrappers
  import opened Text
  import opened Guard
  import opened GenericTagResult
  import opened EngineFault

  // ----------------------------------------------------------- quote repair

  /// The repair pass over the space-separated tokens, as a function of its
  /// state: `glued` the attributes so far and `closed` whether the last
  /// token without '=' ended with a quote. A token without '=' is appended
  /// to the last attribute with one space, unless that flag is set; a token
  /// with '=', and the first token, start a new attribute.
  function GlueFrom(tokens: seq<string>, j: int, glued: seq<string>, closed: bool): seq<string>
    requires 0 <= j <= |tokens|
    decreases |tokens| - j
  {
    if j == |tokens| then glued
    else if |glued| > 0 && '=' !in tokens[j] then
      var next := if !closed then glued[|glued| - 1 := glued[|glued| - 1] + " " + tokens[j]]
                  else glued + [tokens[j]];
      GlueFrom(tokens, j + 1, next, EndsWith(tokens[j], "\""))
    else
      GlueFrom(tokens, j + 1, glued + [tokens[j]], closed)
  }

  /// The attributes after the repair pass.
  function Glue(tokens: seq<string>): seq<string> {
    GlueFrom(tokens, 0, [], false)
  }

  /// The repair pass of the resolver: the token list is rebuilt in a loop,
  /// the last entry overwritten when a token is glued to it.
  method GlueTokens(tokens: seq<string>) returns (attributes: seq<string>)
    ensures attributes == Glue(tokens)
  {
    var tmpAttributes: seq<string> := [];
    var attrClosed := false;
    var j := 0;
    while j < |tokens|
      invariant 0 <= j <= |tokens|
      invariant GlueFrom(tokens, j, tmpAttributes, attrClosed) == Glue(tokens)
    {
      if |tmpAttributes| > 0 && '=' !in tokens[j] {
        if !attrClosed {
          tmpAttributes := tmpAttributes[|tmpAttributes| - 1 := tmpAttributes[|tmpAttributes| - 1] + " " + tokens[j]];
        } else {
          tmpAttributes := tmpAttributes + [tokens[j]];
        }
        attrClosed := EndsWith(tokens[j], "\"");
      } else {
        tmpAttributes := tmpAttributes + [tokens[j]];
      }
      j := j + 1;
    }
    attributes := tmpAttributes;
  }

  /// The strings joined with single spaces.
  function Join(words: seq<string>): string {
    if |words| == 0 then ""
    else if |words| == 1 then words[0]
    else Join(words[..|words| - 1]) + " " + words[|words| - 1]
  }

  /// Joining two non-empty lists is joining their joins.
  lemma {:induction false} JoinAppend(a: seq<string>, b: seq<string>)
    requires |a| > 0
    ensures |b| > 0 ==> Join(a + b) == Join(a) + " " + Join(b)
    ensures |b| == 0 ==> Join(a + b) == Join(a)
    decreases |b|
  {
    if |b| == 0 {
      assert a + b == a;
    } else if |b| == 1 {
      assert (a + b)[..|a + b| - 1] == a;
    } else {
      var c := b[..|b| - 1];
      assert (a + b)[..|a + b| - 1] == a + c;
      assert b[..|b| - 1] == c;
      JoinAppend(a, c);
    }
  }

  /// The repair pass never loses, adds or reorders text: the attributes
  /// joined with single spaces are the tokens joined with single spaces.
  lemma GlueKeepsText(tokens: seq<string>)
    ensures Join(Glue(tokens)) == Join(tokens)
  {
    if |tokens| > 0 {
      assert [] + [tokens[0]] == [tokens[0]];
      GlueFromKeepsText(tokens, 1, [tokens[0]], false);
      assert [tokens[0]] + tokens[1..] == tokens;
    }
  }

  lemma {:induction false} GlueFromKeepsText(tokens: seq<string>, j: int, glued: seq<string>, closed: bool)
    requires 0 <= j <= |tokens| && |glued| > 0
    ensures Join(GlueFrom(tokens, j, glued, closed)) == Join(glued + tokens[j..])
    decreases |tokens| - j
  {
    if j == |tokens| {
      assert glued + tokens[j..] == glued;
    } else {
      var t := tokens[j];
      var rest := tokens[j + 1..];
      var next := if '=' !in t && !closed then glued[|glued| - 1 := glued[|glued| - 1] + " " + t]
                  else glued + [t];
      var closed' := if '=' !in t then EndsWith(t, "\"") else closed;
      assert GlueFrom(tokens, j, glued, closed) == GlueFrom(tokens, j + 1, next, closed');
      GlueFromKeepsText(tokens, j + 1, next, closed');
      GlueStepKeepsText(glued, t, '=' !in t && !closed);
      assert glued + tokens[j..] == (glued + [t]) + rest;
      JoinAppend(next, rest);
      JoinAppend(glued + [t], rest);
    }
  }

  /// One step of the repair pass keeps the joined text.
  lemma GlueStepKeepsText(glued: seq<string>, t: string, glue: bool)
    requires |glued| > 0
    ensures var next := if glue then glued[|glued| - 1 := glued[|glued| - 1] + " " + t] else glued + [t];
      Join(next) == Join(glued + [t])
  {
    if glue {
      var init := glued[..|glued| - 1];
      var last := glued[|glued| - 1];
      var x := last + " " + t;
      var next := glued[|glued| - 1 := x];
      assert glued == init + [last];
      assert next == init + [x];
      JoinAppend(glued, [t]);
      assert Join([t]) == t;
      if |init| > 0 {
        JoinAppend(init, [x]);
        JoinAppend(init, [last]);
        assert Join([x]) == x && Join([last]) == last;
        var front := Join(init) + " ";
        Associative(front, last, " ");
        Associative(front, last + " ", t);
      } else {
        assert next == [x] && glued == [last];
        assert Join(next) == x;
      }
    }
  }

  /// Concatenation regroups. Kept apart so that the solver proves this
  /// extensional equality without the context of the repair step.
  lemma Associative(a: string, b: string, c: string)
    ensures (a + b) + c == a + (b + c)
  {
  }

  /// A bare token right after a name=value token is always glued to it:
  /// the quote flag is only set by bare tokens.
  lemma BareAfterPairGlued(pair: string, bare: string)
    requires '=' in pair && '=' !in bare
    ensures Glue([pair, bare]) == [pair + " " + bare]
  {
    var tokens := [pair, bare];
    assert [] + [pair] == [pair] && [pair][0 := pair + " " + bare] == [pair + " " + bare];
    assert GlueFrom(tokens, 0, [], false) == GlueFrom(tokens, 1, [pair], false);
    assert GlueFrom(tokens, 1, [pair], false) == GlueFrom(tokens, 2, [pair + " " + bare], EndsWith(bare, "\""));
  }

  /// After a bare token ending with a quote, the next bare token starts a
  /// new attribute.
  lemma BareAfterQuotedBareSeparate(pair: string, quoted: string, bare: string)
    requires '=' in pair && '=' !in quoted && '=' !in bare && EndsWith(quoted, "\"")
    ensures Glue([pair, quoted, bare]) == [pair + " " + quoted, bare]
  {
    var tokens := [pair, quoted, bare];
    assert [] + [pair] == [pair] && [pair][0 := pair + " " + quoted] == [pair + " " + quoted];
    assert GlueFrom(tokens, 0, [], false) == GlueFrom(tokens, 1, [pair], false);
    assert GlueFrom(tokens, 1, [pair], false) == GlueFrom(tokens, 2, [pair + " " + quoted], true);
    assert GlueFrom(tokens, 2, [pair + " " + quoted], true) == GlueFrom(tokens, 3, [pair + " " + quoted, bare], EndsWith(bare, "\""));
  }

  // ------------------------------------------------------ attribute pairs

  /// What one attribute adds to the dictionary. With a '=' after the first
  /// character, the name is the text before it and the value the text after
  /// it with its quotes trimmed; a token with no such '=' that is not blank
  /// maps to itself; a blank token adds nothing. A blank name is rejected.
  function AddToken(attributes: map<string, string>, token: string): (r: Result<map<string, string>, Fault>)
    ensures r.Err? ==> r.error == AttributeNameRejected(ArgumentException("name"))
  {
    assert !IsWhiteSpace("name"[0]);
    var separator := IndexOf(token, '=');
    if separator > 0 then
      var name := token[..separator];
      match ArgumentNotEmpty(Some(name), Some("name"))
      case Fail(e) => Err(AttributeNameRejected(e))
      case Pass => Ok(attributes[name := Trim(token[separator + 1..], '"')])
    else if !IsBlank(token) then
      match ArgumentNotEmpty(Some(token), Some("name"))
      case Fail(e) => Err(AttributeNameRejected(e))
      case Pass => Ok(attributes[token := token])
    else
      Ok(attributes)
  }

  /// The dictionary after the attributes from index j on are added in turn;
  /// the first rejected name stops the loop.
  function AddTokens(attributes: map<string, string>, tokens: seq<string>, j: int): (r: Result<map<string, string>, Fault>)
    requires 0 <= j <= |tokens|
    ensures r.Err? ==> r.error == AttributeNameRejected(ArgumentException("name"))
    decreases |tokens| - j
  {
    if j == |tokens| then Ok(attributes)
    else
      match AddToken(attributes, tokens[j])
      case Err(f) => Err(f)
      case Ok(next) => AddTokens(next, tokens, j + 1)
  }

  /// Adding one more attribute at the end is one more step on the result.
  lemma {:induction false} AddTokensAppend(attributes: map<string, string>, tokens: seq<string>, j: int, token: string)
    requires 0 <= j <= |tokens|
    ensures AddTokens(attributes, tokens + [token], j)
      == match AddTokens(attributes, tokens, j)
         case Err(f) => Err(f)
         case Ok(m) => AddToken(m, token)
    decreases |tokens| - j
  {
    var all := tokens + [token];
    if j == |tokens| {
      assert all[j] == token;
      var step := AddToken(attributes, token);
      if step.Ok? {
        assert AddTokens(step.value, all, j + 1) == Ok(step.value);
      }
    } else {
      assert all[j] == tokens[j];
      var step := AddToken(attributes, tokens[j]);
      if step.Ok? {
        AddTokensAppend(step.value, tokens, j + 1, token);
      }
    }
  }

  /// A later attribute of the same name wins: after a last name=value token
  /// whose name is accepted, the name maps to that value whatever came
  /// before it.
  lemma LastAssignmentWins(attributes: map<string, string>, tokens: seq<string>, token: string)
    requires IndexOf(token, '=') > 0
    requires AddTokens(attributes, tokens + [token], 0).Ok?
    ensures var separator := IndexOf(token, '=');
      var name := token[..separator];
      name in AddTokens(attributes, tokens + [token], 0).value
      && AddTokens(attributes, tokens + [token], 0).value[name] == Trim(token[separator + 1..], '"')
  {
    AddTokensAppend(attributes, tokens, 0, token);
  }

  /// A name=value attribute whose name is blank stops the reader with the
  /// guard's exception, whatever came before it.
  lemma BlankNameRejected(attributes: map<string, string>, tokens: seq<string>, token: string)
    requires IndexOf(token, '=') > 0 && IsBlank(token[..IndexOf(token, '=')])
    ensures AddTokens(attributes, tokens + [token], 0).Err?
  {
    AddTokensAppend(attributes, tokens, 0, token);
  }

  // ---------------------------------------------------------------- resolve

  /// What the resolver leaves in a tag: the raw attribute text, the
  /// attribute dictionary and the cut Html.
  datatype TagText = TagText(rawAttributesHtml: string, attributes: map<string, string>, html: string)

  /// The raw attribute text: the Html before its first '>' when that is
  /// not the first character, the whole Html otherwise.
  function RawAttributes(html: string): (raw: string)
    ensures var t := IndexOf(html, '>');
      raw == if t > 0 then html[..t] else html
  {
    var tagEndIndex := IndexOf(html, '>');
    if tagEndIndex > 0 then html[..tagEndIndex] else html
  }

  /// The final cut of the resolver: the Html from just after the first
  /// '>' (from its start when there is none), `searchLength` being the
  /// length the caller cut the Html to, or the empty string unless at least
  /// two characters would remain.
  function CutAfterTagEnd(html: string, searchLength: int): Result<string, SubstringFault> {
    var tagEndIndex := IndexOf(html, '>');
    if tagEndIndex + 1 < |html| && tagEndIndex + 2 < searchLength then
      Substring(html, tagEndIndex + 1, searchLength - tagEndIndex - 1)
    else
      Ok("")
  }

  /// The attributeResolver on a tag whose Html is `html` and whose
  /// dictionary holds `attributes`.
  function Resolve(html: string, searchLength: int, attributes: map<string, string>): (r: Result<TagText, Fault>)
  {
    var raw := RawAttributes(html);
    match AddTokens(attributes, Glue(Split(raw, ' ')), 0)
    case Err(f) => Err(f)
    case Ok(added) =>
      match CutAfterTagEnd(html, searchLength)
      case Err(cause) => Err(SubstringOutOfRange(cause))
      case Ok(rest) => Ok(TagText(raw, added, rest))
  }

  /// Called as the pairing loop calls it, with the length of the Html, the
  /// cut keeps the text after the first '>', or the whole text when there
  /// is no '>', provided at least two characters remain; otherwise it gives
  /// the empty string. It is always in range.
  lemma CutKeepsTextAfterFirstTagEnd(html: string)
    ensures CutAfterTagEnd(html, |html|).Ok?
    ensures '>' !in html ==> CutAfterTagEnd(html, |html|).value == if |html| >= 2 then html else ""
    ensures forall t :: 0 <= t < |html| && html[t] == '>' && '>' !in html[..t] ==>
      CutAfterTagEnd(html, |html|).value == if |html| - t - 1 >= 2 then html[t + 1..] else ""
  {
    var tagEndIndex := IndexOf(html, '>');
    forall t | 0 <= t < |html| && html[t] == '>' && '>' !in html[..t]
      ensures tagEndIndex == t
    {
      assert forall k :: 0 <= k < t ==> html[..t][k] == html[k];
    }
  }

  /// Called as the pairing loop calls it, the resolver can only fail on a
  /// blank attribute name, and then with the guard's exception naming
  /// "name".
  lemma ResolveFailsOnlyOnNames(html: string, attributes: map<string, string>)
    requires Resolve(html, |html|, attributes).Err?
    ensures Resolve(html, |html|, attributes).error == AttributeNameRejected(ArgumentException("name"))
    ensures Raisable(Resolve(html, |html|, attributes).error)
  {
    CutKeepsTextAfterFirstTagEnd(html);
  }

  /// The attributeResolver delegate. It sets RawAttributesHtml, splits it on
  /// spaces, repairs the quoting, adds each attribute to the tag in turn and
  /// finally cuts the Html; a rejected name stops it with the fault.
  method ResolveAttributes(tag: GenericTagResult, searchLength: int) returns (fault: Option<Fault>)
    requires tag.html.Some?
    modifies tag
    ensures var r := Resolve(old(tag.html.value), searchLength, old(tag.attributes));
      (fault.None? <==> r.Ok?)
      && (r.Err? ==> fault == Some(r.error))
      && (r.Ok? ==> tag.html == Some(r.value.html) && tag.rawAttributesHtml == Some(r.value.rawAttributesHtml)
                    && tag.attributes == r.value.attributes)
    ensures tag.startIndex == old(tag.startIndex) && tag.endIndex == old(tag.endIndex)
  {
    var html := tag.html.value;
    var tagEndIndex := IndexOf(html, '>');
    if tagEndIndex > 0 {
      tag.rawAttributesHtml := Some(html[..tagEndIndex]);
    } else {
      tag.rawAttributesHtml := Some(html);
    }
    var attributes := GlueTokens(Split(tag.rawAttributesHtml.value, ' '));
    fault := AddAttributes(tag, attributes);
    if fault.None? {
      fault := CutHtml(tag, searchLength);
    }
  }

  /// The last statement of the resolver: the Html cut to what follows the
  /// first '>'.
  method CutHtml(tag: GenericTagResult, searchLength: int) returns (fault: Option<Fault>)
    requires tag.html.Some?
    modifies tag
    ensures var r := CutAfterTagEnd(old(tag.html.value), searchLength);
      (r.Err? ==> fault == Some(SubstringOutOfRange(r.error)))
      && (r.Ok? ==> fault == None && tag.html == Some(r.value))
    ensures tag.startIndex == old(tag.startIndex) && tag.endIndex == old(tag.endIndex)
    ensures tag.rawAttributesHtml == old(tag.rawAttributesHtml) && tag.attributes == old(tag.attributes)
  {
    var html := tag.html.value;
    var tagEndIndex := IndexOf(html, '>');
    fault := None;
    if tagEndIndex + 1 < |html| && tagEndIndex + 2 < searchLength {
      var rest := Substring(html, tagEndIndex + 1, searchLength - tagEndIndex - 1);
      if rest.Err? {
        return Some(SubstringOutOfRange(rest.error));
      }
      tag.html := Some(rest.value);
    } else {
      tag.html := Some("");
    }
  }

  /// The attribute loop of the resolver: each attribute is added to the tag
  /// in turn, and the first rejected name stops the loop.
  method AddAttributes(tag: GenericTagResult, attributes: seq<string>) returns (fault: Option<Fault>)
    modifies tag
    ensures var r := AddTokens(old(tag.attributes), attributes, 0);
      (fault.None? <==> r.Ok?)
      && (r.Err? ==> fault == Some(r.error))
      && (r.Ok? ==> tag.attributes == r.value)
    ensures tag.startIndex == old(tag.startIndex) && tag.endIndex == old(tag.endIndex)
    ensures tag.html == old(tag.html) && tag.rawAttributesHtml == old(tag.rawAttributesHtml)
  {
    ghost var added := AddTokens(tag.attributes, attributes, 0);
    var j := 0;
    while j < |attributes|
      invariant 0 <= j <= |attributes|
      invariant AddTokens(tag.attributes, attributes, j) == added
      invariant tag.startIndex == old(tag.startIndex) && tag.endIndex == old(tag.endIndex)
      invariant tag.html == old(tag.html) && tag.rawAttributesHtml == old(tag.rawAttributesHtml)
    {
      fault := AddAttribute(tag, attributes, j, added);
      if fault.Some? {
        return;
      }
      j := j + 1;
    }
    fault := None;
  }

  /// One turn of the attribute loop: the attribute at j added to the tag,
  /// the rest of the loop still reaching the same dictionary or fault.
  method AddAttribute(tag: GenericTagResult, attributes: seq<string>, j: int, ghost added: Result<map<string, string>, Fault>)
    returns (fault: Option<Fault>)
    requires 0 <= j < |attributes| && AddTokens(tag.attributes, attributes, j) == added
    modifies tag
    ensures fault.Some? ==> added == Err(fault.value)
    ensures fault.None? ==> AddTokens(tag.attributes, attributes, j + 1) == added
    ensures tag.startIndex == old(tag.startIndex) && tag.endIndex == old(tag.endIndex)
    ensures tag.html == old(tag.html) && tag.rawAttributesHtml == old(tag.rawAttributesHtml)
  {
    var attributeSeparatorIndex := IndexOf(attributes[j], '=');
    fault := None;
    if attributeSeparatorIndex > 0 {
      var check := tag.AddAttributePair(Some(attributes[j][..attributeSeparatorIndex]),
                                        Trim(attributes[j][attributeSeparatorIndex + 1..], '"'));
      if check.Fail? {
        fault := Some(AttributeNameRejected(check.error));
      }
    } else if !IsNullOrWhiteSpace(Some(attributes[j])) {
      // A name that is not blank always passes the check.
      var _ := tag.AddAttributePair(Some(attributes[j]), attributes[j]);
    }
  }
}
