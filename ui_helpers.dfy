/**
 * The pure helpers of the browser script: HTML escaping of user text, the
 * CSS class of a GPA badge, and the mapping of a filter button's value to
 * the query parameter sent to the service.
 */
module UiHelpers {
  import opened Wrappers
  import StudentValidator

  // ----- escapeHtml -----

  /** The five characters that have a meaning in HTML markup and attribute values. */
  predicate IsSpecial(c: char) {
    c == '&' || c == '<' || c == '>' || c == '"' || c == '\''
  }

  /** The replacement of one character: its entity when special, itself otherwise. */
  function EscapeChar(c: char): (r: string)
    ensures c == '&' ==> r == "&amp;"
    ensures c == '<' ==> r == "&lt;"
    ensures c == '>' ==> r == "&gt;"
    ensures c == '"' ==> r == "&quot;"
    ensures c == '\'' ==> r == "&#039;"
    ensures !IsSpecial(c) ==> r == [c]
  {
    match c
    case '&' => "&amp;"
    case '<' => "&lt;"
    case '>' => "&gt;"
    case '"' => "&quot;"
    case '\'' => "&#039;"
    case _ => [c]
  }

  /**
   * `escapeHtml(text)`: every special character replaced by its entity, in
   * one left-to-right pass. The output is never shorter and holds no `<`,
   * `>`, `"` or `'`: of the special characters only `&` survives, as the
   * start of an entity.
   */
  function EscapeHtml(text: string): (html: string)
    ensures |html| >= |text|
    ensures forall i :: 0 <= i < |html| ==> html[i] != '<' && html[i] != '>' && html[i] != '"' && html[i] != '\''
  {
    if text == [] then []
    else
      var head, tail := EscapeChar(text[0]), EscapeHtml(text[1..]);
      assert forall i :: |head| <= i < |head + tail| ==> (head + tail)[i] == tail[i - |head|];
      head + tail
  }

  /** Escaping distributes over concatenation. */
  lemma {:induction false} EscapeHtmlConcat(a: string, b: string)
    ensures EscapeHtml(a + b) == EscapeHtml(a) + EscapeHtml(b)
  {
    if a != [] {
      assert (a + b)[0] == a[0];
      assert (a + b)[1..] == a[1..] + b;
      EscapeHtmlConcat(a[1..], b);
    } else {
      assert a + b == b;
    }
  }

  /** A string without special characters comes back unchanged. */
  lemma {:induction false} EscapeHtmlPreserves(text: string)
    ensures (forall i :: 0 <= i < |text| ==> !IsSpecial(text[i])) ==> EscapeHtml(text) == text
  {
    if text != [] {
      EscapeHtmlPreserves(text[1..]);
      if forall i :: 0 <= i < |text| ==> !IsSpecial(text[i]) {
        assert forall i :: 0 <= i < |text[1..]| ==> !IsSpecial(text[1..][i]) by {
          forall i | 0 <= i < |text[1..]| ensures !IsSpecial(text[1..][i]) {
            assert text[1..][i] == text[i + 1];
          }
        }
      }
    }
  }

  /** Whether `html` begins with `prefix`. */
  predicate StartsWith(html: string, prefix: string) {
    |html| >= |prefix| && html[..|prefix|] == prefix
  }

  /** Decoding of the five entities, the inverse the browser applies when it renders escaped text. */
  function UnescapeHtml(html: string): string
    decreases |html|
  {
    if html == [] then []
    else if StartsWith(html, "&amp;") then "&" + UnescapeHtml(html[5..])
    else if StartsWith(html, "&lt;") then "<" + UnescapeHtml(html[4..])
    else if StartsWith(html, "&gt;") then ">" + UnescapeHtml(html[4..])
    else if StartsWith(html, "&quot;") then "\"" + UnescapeHtml(html[6..])
    else if StartsWith(html, "&#039;") then "'" + UnescapeHtml(html[6..])
    else [html[0]] + UnescapeHtml(html[1..])
  }

  /** A string starting with `p` does not start with a string that differs from `p` at some index both have. */
  lemma NotStartsWith(h: string, p: string, q: string, k: nat)
    requires StartsWith(h, p) && k < |p| && k < |q| && p[k] != q[k]
    ensures !StartsWith(h, q)
  {
    assert h[k] == h[..|p|][k] == p[k];
  }

  /** Decoding one escaped character in front of anything gives the character back first. */
  lemma UnescapeOneChar(c: char, rest: string)
    ensures UnescapeHtml(EscapeChar(c) + rest) == [c] + UnescapeHtml(rest)
  {
    var e := EscapeChar(c);
    var h := e + rest;
    assert h[..|e|] == e && h[|e|..] == rest;
    assert StartsWith(h, e);
    if c == '&' {
    } else if c == '<' {
      NotStartsWith(h, e, "&amp;", 1);
    } else if c == '>' {
      NotStartsWith(h, e, "&amp;", 1);
      NotStartsWith(h, e, "&lt;", 1);
    } else if c == '"' {
      NotStartsWith(h, e, "&amp;", 1);
      NotStartsWith(h, e, "&lt;", 1);
      NotStartsWith(h, e, "&gt;", 1);
    } else if c == '\'' {
      NotStartsWith(h, e, "&amp;", 1);
      NotStartsWith(h, e, "&lt;", 1);
      NotStartsWith(h, e, "&gt;", 1);
      NotStartsWith(h, e, "&quot;", 1);
    } else {
      NotStartsWith(h, e, "&amp;", 0);
      NotStartsWith(h, e, "&lt;", 0);
      NotStartsWith(h, e, "&gt;", 0);
      NotStartsWith(h, e, "&quot;", 0);
      NotStartsWith(h, e, "&#039;", 0);
      assert h[1..] == rest;
    }
  }

  /** Escaping loses nothing: decoding the escaped text gives the original text. */
  lemma {:induction false} UnescapeEscapeHtml(text: string)
    ensures UnescapeHtml(EscapeHtml(text)) == text
  {
    if text != [] {
      UnescapeOneChar(text[0], EscapeHtml(text[1..]));
      UnescapeEscapeHtml(text[1..]);
      assert [text[0]] + text[1..] == text;
    }
  }

  /** Two different texts never escape to the same markup. */
  lemma EscapeHtmlInjective(a: string, b: string)
    requires EscapeHtml(a) == EscapeHtml(b)
    ensures a == b
  {
    UnescapeEscapeHtml(a);
    UnescapeEscapeHtml(b);
  }

  // ----- getGPAClass -----

  const Excellent: string := "gpa-excellent"
  const Good: string := "gpa-good"
  const Fair: string := "gpa-fair"
  const Poor: string := "gpa-poor"

  /** The badge class of a GPA, by the thresholds 3.5, 3.0 and 2.0. */
  function GpaClass(gpa: real): (c: string)
    ensures c == Excellent <==> gpa >= 3.5
    ensures c == Good <==> 3.0 <= gpa < 3.5
    ensures c == Fair <==> 2.0 <= gpa < 3.0
    ensures c == Poor <==> gpa < 2.0
  {
    ClassesDistinct();
    if gpa >= 3.5 then Excellent
    else if gpa >= 3.0 then Good
    else if gpa >= 2.0 then Fair
    else Poor
  }

  lemma ClassesDistinct()
    ensures Excellent != Good && Excellent != Fair && Excellent != Poor
    ensures Good != Fair && Good != Poor && Fair != Poor
  {
    assert Excellent[4] == 'e' && Good[4] == 'g' && Fair[4] == 'f' && Poor[4] == 'p';
  }

  /** The classes ordered from worst to best. */
  function ClassRank(c: string): nat {
    if c == Excellent then 3 else if c == Good then 2 else if c == Fair then 1 else 0
  }

  /** A higher GPA never gets a lower class. */
  lemma GpaClassMonotone(g1: real, g2: real)
    requires g1 <= g2
    ensures ClassRank(GpaClass(g1)) <= ClassRank(GpaClass(g2))
  {
    ClassesDistinct();
  }

  // ----- filter buttons -----

  /** The value of a filter button as sent to the service: "all" means no filter. */
  function FilterParam(value: string): (p: Option<string>)
    ensures p.None? <==> value == "all"
    ensures p.Some? ==> p.value == value
  {
    if value == "all" then None else Some(value)
  }

  /**
   * The query the fetch wrapper builds from a filter: a missing or empty
   * value adds no parameter, so the service sees no filter at all.
   */
  function QueryFilter(p: Option<string>): (q: Option<string>)
    ensures q.None? <==> p.None? || p.value == ""
    ensures q.Some? ==> q == p
  {
    if p.Some? && p.value != "" then p else None
  }

  /**
   * A status button passes the service's filter check exactly when it is
   * "all", empty, or one of the four statuses.
   */
  lemma StatusFilterAccepted(value: string)
    ensures StudentValidator.ValidateStatusIfProvided(QueryFilter(FilterParam(value))).Pass? <==>
      value == "all" || value == "" || value == "active" || value == "graduated" || value == "suspended" || value == "withdrawn"
  {
  }

  /** A major button passes the service's filter check exactly when it is "all", empty, or one of the five majors. */
  lemma MajorFilterAccepted(value: string)
    ensures StudentValidator.ValidateMajorIfProvided(QueryFilter(FilterParam(value))).Pass? <==>
      value == "all" || value == "" || value == "CS" || value == "SE" || value == "IT" || value == "CE" || value == "DS"
  {
  }
}
