/** The string post-processing of a fetched page and the recovery of the language model's answer:
    `_extract_relevant_content` after the page text is taken, and `_parse_llm_response`. */
module Extract {
  import opened Wrappers
  import Text
  import Regex

  /** The length `parse` passes to `_extract_relevant_content`. */
  const MaxContent: nat := 1500

  /** Every whitespace run becomes one space; a text longer than `maxLength` is cut to
      `maxLength` characters and marked with `...`. */
  function RelevantContent(text: string, maxLength: nat): (r: string)
    ensures |r| <= maxLength + 3
    ensures Text.Collapsed(r)
  {
    var t := Text.Collapse(text);
    Text.CollapseIsCollapsed(text);
    if |t| > maxLength then
      PrefixCollapsed(t, maxLength);
      AppendDots(t[..maxLength]);
      t[..maxLength] + "..."
    else t
  }

  lemma PrefixCollapsed(t: string, n: nat)
    requires Text.Collapsed(t) && n <= |t|
    ensures Text.Collapsed(t[..n])
  {
    var p := t[..n];
    forall i | 0 <= i < |p| && Text.IsSpace(p[i])
      ensures p[i] == ' ' && (i + 1 == |p| || !Text.IsSpace(p[i + 1]))
    {
      assert p[i] == t[i];
    }
  }

  lemma AppendDots(p: string)
    requires Text.Collapsed(p)
    ensures Text.Collapsed(p + "...")
  {
    var s := p + "...";
    forall i | 0 <= i < |s| && Text.IsSpace(s[i])
      ensures s[i] == ' ' && (i + 1 == |s| || !Text.IsSpace(s[i + 1]))
    {
      assert i < |p|;
      assert s[i] == p[i];
      if i + 1 == |p| {
        assert s[i + 1] == '.';
      } else {
        assert s[i + 1] == p[i + 1];
      }
    }
  }

  /** The content keeps every non-whitespace character of a text that fits, in order, and of a
      longer text it keeps a prefix. */
  lemma RelevantContentKeepsText(text: string, maxLength: nat)
    ensures var t := Text.Collapse(text);
      && (|t| <= maxLength ==> Text.NonSpace(RelevantContent(text, maxLength)) == Text.NonSpace(text))
      && (|t| > maxLength ==> RelevantContent(text, maxLength) == t[..maxLength] + "..." && |RelevantContent(text, maxLength)| == maxLength + 3)
  {
    Text.CollapseKeepsText(text);
  }

  /** Taking the content of the content changes nothing: the marker `...` brings a cut text
      back to exactly the cut length plus the marker. */
  lemma RelevantContentIdempotent(text: string, maxLength: nat)
    ensures RelevantContent(RelevantContent(text, maxLength), maxLength) == RelevantContent(text, maxLength)
  {
    var r := RelevantContent(text, maxLength);
    Text.CollapseCollapsed(r);
    var t := Text.Collapse(text);
    if |t| > maxLength {
      assert r[..maxLength] == t[..maxLength];
    }
  }

  // ---------------------------------------------------------------------------------------------
  // The language model's answer.

  /** A decoded JSON value, as far as `parse` looks at it: a string, an object, or anything else
      (`null`, a number, a boolean or an array, none of which has `.strip()` or `.get()`). */
  datatype Json = JString(text: string) | JObject(fields: map<string, Json>) | JOther

  /** `\{.*\}` under `re.DOTALL`. */
  const BracedPattern := Regex.Pattern([Regex.Lit('{'), Regex.Atom(Regex.Any, 0, Regex.Unbounded), Regex.Lit('}')], false)

  /** `_parse_llm_response`: `decode` is `json.loads`, `None` where it raises. The answer is
      decoded whole; failing that, the span from the first `{` to the last `}` is decoded;
      failing that, the result is the empty object. */
  function ParseLlmResponse(decode: string -> Option<Json>, response: string): Json {
    match decode(response)
    case Some(j) => j
    case None =>
      match Regex.Search(BracedPattern, response)
      case None => JObject(map[])
      case Some(b) =>
        var span := Regex.Span(BracedPattern.atoms, false, response, b, 0, 3);
        decode(span).GetOr(JObject(map[]))
  }

  /** `s[p]` is the first `{` and `s[q]` the last `}`, after it. */
  predicate OuterBraces(s: string, p: nat, q: nat) {
    && p < q < |s| && s[p] == '{' && s[q] == '}'
    && (forall i :: 0 <= i < p ==> s[i] != '{')
    && (forall i :: q < i < |s| ==> s[i] != '}')
  }

  predicate HasBracePair(s: string) {
    exists p, q :: 0 <= p < q < |s| && s[p] == '{' && s[q] == '}'
  }

  /** The three outcomes of the recovery. */
  lemma ParseLlmResponseSpec(decode: string -> Option<Json>, response: string)
    ensures decode(response).Some? ==> ParseLlmResponse(decode, response) == decode(response).value
    ensures decode(response).None? && !HasBracePair(response) ==> ParseLlmResponse(decode, response) == JObject(map[])
    ensures forall p: nat, q: nat :: decode(response).None? && OuterBraces(response, p, q) ==>
      ParseLlmResponse(decode, response) == decode(response[p..q + 1]).GetOr(JObject(map[]))
  {
    if decode(response).None? {
      if HasBracePair(response) {
        forall p: nat, q: nat | OuterBraces(response, p, q)
          ensures ParseLlmResponse(decode, response) == decode(response[p..q + 1]).GetOr(JObject(map[]))
        {
          BracedSpan(response, p, q);
        }
      } else if Regex.Search(BracedPattern, response).Some? {
        var b := Regex.Search(BracedPattern, response).value;
        BracedAccepts(response, b);
        assert false;
      }
    }
  }

  /** Any match of the pattern starts at a `{` and ends just after a later `}`. */
  lemma BracedAccepts(s: string, b: seq<nat>)
    requires Regex.Accepts(BracedPattern.atoms, false, s, b)
    ensures b[0] < b[2] < |s| && b[1] == b[0] + 1 && b[3] == b[2] + 1 && s[b[0]] == '{' && s[b[2]] == '}'
  {
    var atoms := BracedPattern.atoms;
    assert Regex.Fits(atoms[0], s, b[0], b[1]);
    assert Regex.Fits(atoms[1], s, b[1], b[2]);
    assert Regex.Fits(atoms[2], s, b[2], b[3]);
    Regex.InLit('{', s[b[0]]);
    Regex.InLit('}', s[b[2]]);
  }

  /** The search picks the span from the first `{` to the last `}`. */
  lemma BracedSpan(s: string, p: nat, q: nat)
    requires OuterBraces(s, p, q)
    ensures var m := Regex.Search(BracedPattern, s);
      m.Some? && m.value == [p, p + 1, q, q + 1]
  {
    var atoms := BracedPattern.atoms;
    var w := [p, p + 1, q, q + 1];
    Regex.InLit('{', s[p]);
    Regex.InLit('}', s[q]);
    assert Regex.Fits(atoms[0], s, p, p + 1);
    assert Regex.Fits(atoms[1], s, p + 1, q);
    assert Regex.Fits(atoms[2], s, q, q + 1);
    assert Regex.Accepts(atoms, false, s, w);
    Regex.SearchComplete(BracedPattern, s, w);
    var b := Regex.Search(BracedPattern, s).value;
    BracedAccepts(s, b);
    assert b[0] == p;
    Regex.SearchFromFound(BracedPattern, s, 0);
    Regex.MatchRest(atoms, false, s, b);
    assert atoms[1..] == [atoms[1], atoms[2]];
    var w' := w[1..];
    assert Regex.Accepts(atoms[1..], false, s, w') by {
      assert Regex.Fits(atoms[1..][0], s, w'[0], w'[1]);
      assert Regex.Fits(atoms[1..][1], s, w'[1], w'[2]);
    }
    Regex.MatchGreedy(atoms[1..], false, s, b[1..], w');
    assert q <= b[2];
  }
}
