/**
 * The HTML snippet the recommendation rule renders: one `div` element whose
 * inline `style` attribute is given, wrapping a line of text. The rendering
 * is the f-string `<div style="{style}">{body}</div>`; ParseDiv reads a
 * snippet back, so that what a rendered recommendation says can be stated
 * about the string itself.
 */
module Html {
  import opened Wrappers

  const DivOpen: string := "<div style=\""
  const TagClose: string := "\">"
  const DivClose: string := "</div>"

  /** `<div style="{style}">{body}</div>` */
  function Div(style: string, body: string): (html: string)
    ensures |html| == |DivOpen| + |style| + |TagClose| + |body| + |DivClose|
    ensures html[|DivOpen|..|DivOpen| + |style|] == style
    ensures html[|html| - |DivClose| - |body|..|html| - |DivClose|] == body
  {
    DivOpen + style + TagClose + body + DivClose
  }

  /** The index of the last double quote in `s`, if there is one. */
  function FindLastQuote(s: string): (r: Option<nat>)
    ensures r.Some? ==> r.value < |s| && s[r.value] == '"' && '"' !in s[r.value + 1..]
    ensures r.None? ==> '"' !in s
  {
    if |s| == 0 then None
    else if s[|s| - 1] == '"' then Some(|s| - 1)
    else
      var r := FindLastQuote(s[..|s| - 1]);
      assert r.Some? ==> s[r.value + 1..] == s[..|s| - 1][r.value + 1..] + [s[|s| - 1]];
      assert r.None? ==> s == s[..|s| - 1] + [s[|s| - 1]];
      r
  }

  /**
   * Reads the style and the body back from a `div` snippet. The body is what
   * follows the last double quote, which must be the one that opens `">`.
   */
  function ParseDiv(html: string): (r: Option<(string, string)>)
    ensures r.Some? ==> '"' !in r.value.1 && html == Div(r.value.0, r.value.1)
  {
    if |html| < |DivOpen| + |TagClose| + |DivClose|
       || html[..|DivOpen|] != DivOpen
       || html[|html| - |DivClose|..] != DivClose
    then None
    else
      var inner := html[|DivOpen|..|html| - |DivClose|];
      match FindLastQuote(inner)
      case None => None
      case Some(k) =>
        if k + |TagClose| <= |inner| && inner[k..k + |TagClose|] == TagClose then
          SplitAtTagClose(html, k);
          Some((inner[..k], inner[k + |TagClose|..]))
        else None
  }

  /** A snippet cut at its `">` is the `div` of the two halves. */
  lemma SplitAtTagClose(html: string, k: nat)
    requires |html| >= |DivOpen| + |TagClose| + |DivClose|
    requires html[..|DivOpen|] == DivOpen && html[|html| - |DivClose|..] == DivClose
    requires var inner := html[|DivOpen|..|html| - |DivClose|];
      k + |TagClose| <= |inner| && inner[k..k + |TagClose|] == TagClose
    ensures var inner := html[|DivOpen|..|html| - |DivClose|];
      html == Div(inner[..k], inner[k + |TagClose|..])
  {
  }

  /** A quote-free tail is skipped: the last quote is the one just before it. */
  lemma {:induction false} FindLastQuoteBefore(prefix: string, rest: string)
    requires '"' !in rest
    ensures FindLastQuote(prefix + ['"'] + rest) == Some(|prefix|)
  {
    if |rest| > 0 {
      var s := prefix + ['"'] + rest;
      assert s[..|s| - 1] == prefix + ['"'] + rest[..|rest| - 1];
      assert s[|s| - 1] == rest[|rest| - 1];
      FindLastQuoteBefore(prefix, rest[..|rest| - 1]);
    }
  }

  /** Rendering then parsing gives back the style and the body. */
  lemma {:induction false} ParseDivOfDiv(style: string, body: string)
    requires '"' !in body
    ensures ParseDiv(Div(style, body)) == Some((style, body))
  {
    var html := Div(style, body);
    var inner := html[|DivOpen|..|html| - |DivClose|];
    assert html[..|DivOpen|] == DivOpen;
    assert html[|html| - |DivClose|..] == DivClose;
    assert inner == style + ['"'] + (">" + body);
    FindLastQuoteBefore(style, ">" + body);
    assert inner[|style|..|style| + |TagClose|] == TagClose;
    assert inner[..|style|] == style;
    assert inner[|style| + |TagClose|..] == body;
  }
}
