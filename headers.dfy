/**
 * The request-header transform of the extension: when the extension asks
 * servers not to apply PageSpeed, the first header named "PageSpeed"
 * (compared case-insensitively) gets the value "off", or such a header is
 * appended when the request carries none.
 */
module Headers {
  import opened Wrappers

  /** One entry of an outgoing request's header list. */
  datatype Header = Header(name: string, value: string)

  /** The header appended when the request carries no PageSpeed header. */
  const PageSpeedOff := Header("PageSpeed", "off")

  /** `toLowerCase()` restricted to one character: only ASCII upper-case letters change. */
  function LowerChar(c: char): (r: char)
    ensures !('A' <= r <= 'Z')
    ensures r != c ==> 'A' <= c <= 'Z' && r as int == c as int + 32
    ensures 'a' <= r <= 'z' <==> 'a' <= c <= 'z' || 'A' <= c <= 'Z'
  {
    if 'A' <= c <= 'Z' then (c as int + 32) as char else c
  }

  /** `toLowerCase()` on a header name, character by character. */
  function LowerCase(s: string): (r: string)
    ensures |r| == |s|
    ensures forall i :: 0 <= i < |s| ==> r[i] == LowerChar(s[i])
  {
    if s == [] then [] else [LowerChar(s[0])] + LowerCase(s[1..])
  }

  /** The test `header.name.toLowerCase() === "pagespeed"`. */
  predicate IsPageSpeed(name: string)
  {
    LowerCase(name) == "pagespeed"
  }

  /** The header names the test accepts are exactly the case variants of "pagespeed". */
  lemma IsPageSpeedIff(name: string)
    ensures IsPageSpeed(name) <==>
      |name| == 9 && forall i :: 0 <= i < 9 ==> LowerChar(name[i]) == "pagespeed"[i]
  {
  }

  /** The name of the appended header passes the test itself. */
  lemma PageSpeedOffMatches()
    ensures IsPageSpeed(PageSpeedOff.name)
  {
  }

  /** The index at which the scan over the headers stops: the first header that passes the test. */
  function FirstMatch(hs: seq<Header>): (r: Option<nat>)
    ensures r.Some? ==> r.value < |hs| && IsPageSpeed(hs[r.value].name)
    ensures r.Some? ==> forall j :: 0 <= j < r.value ==> !IsPageSpeed(hs[j].name)
    ensures r.None? <==> forall j :: 0 <= j < |hs| ==> !IsPageSpeed(hs[j].name)
  {
    if hs == [] then None
    else if IsPageSpeed(hs[0].name) then Some(0)
    else match FirstMatch(hs[1..])
      case None => None
      case Some(k) => Some(k + 1)
  }

  /** The first match is determined by the names alone: values do not take part in the scan. */
  lemma FirstMatchByNames(a: seq<Header>, b: seq<Header>)
    requires |a| == |b|
    requires forall j :: 0 <= j < |a| ==> a[j].name == b[j].name
    ensures FirstMatch(a) == FirstMatch(b)
  {
  }

  /**
   * The header list after the transform, where `disabled` is the extension's
   * state: unchanged when not disabled; otherwise the first PageSpeed header's
   * value is overwritten with "off", or PageSpeedOff is appended when none exists.
   */
  function Injected(hs: seq<Header>, disabled: bool): seq<Header>
  {
    if !disabled then hs
    else match FirstMatch(hs)
      case Some(i) => hs[i := hs[i].(value := "off")]
      case None => hs + [PageSpeedOff]
  }

  /** When the extension is not disabled, the request goes out with exactly its own headers. */
  lemma InjectedWhenAllowed(hs: seq<Header>)
    ensures Injected(hs, false) == hs
  {
  }

  /** No PageSpeed header present: one header is appended at the end and the rest is untouched. */
  lemma InjectedAppends(hs: seq<Header>)
    requires forall j :: 0 <= j < |hs| ==> !IsPageSpeed(hs[j].name)
    ensures |Injected(hs, true)| == |hs| + 1
    ensures Injected(hs, true)[..|hs|] == hs
    ensures Injected(hs, true)[|hs|] == Header("PageSpeed", "off")
  {
  }

  /**
   * Some PageSpeed header present: the list keeps its length, the first match
   * at index i keeps its name and gets the value "off", and every other
   * header, later duplicates included, is left as it was.
   */
  lemma InjectedOverwrites(hs: seq<Header>, i: nat)
    requires i < |hs| && IsPageSpeed(hs[i].name)
    requires forall j :: 0 <= j < i ==> !IsPageSpeed(hs[j].name)
    ensures |Injected(hs, true)| == |hs|
    ensures Injected(hs, true)[i] == Header(hs[i].name, "off")
    ensures forall j :: 0 <= j < |hs| && j != i ==> Injected(hs, true)[j] == hs[j]
  {
  }

  /**
   * Whatever the state, the transform keeps every header in its position with
   * its name, changes at most one value and adds at most one header at the end.
   */
  lemma InjectedKeepsOrder(hs: seq<Header>, disabled: bool)
    ensures |hs| <= |Injected(hs, disabled)| <= |hs| + 1
    ensures forall j :: 0 <= j < |hs| ==> Injected(hs, disabled)[j].name == hs[j].name
    ensures forall j, k :: 0 <= j < k < |hs| && Injected(hs, disabled)[j] != hs[j] ==> Injected(hs, disabled)[k] == hs[k]
  {
  }

  /** When disabled, the outgoing request always carries a PageSpeed header with value "off". */
  lemma InjectedCarriesOff(hs: seq<Header>)
    ensures exists k ::
              0 <= k < |Injected(hs, true)| &&
              IsPageSpeed(Injected(hs, true)[k].name) && Injected(hs, true)[k].value == "off"
  {
    var out := Injected(hs, true);
    match FirstMatch(hs)
    case Some(i) =>
      assert IsPageSpeed(out[i].name) && out[i].value == "off";
    case None =>
      PageSpeedOffMatches();
      assert IsPageSpeed(out[|hs|].name) && out[|hs|].value == "off";
  }

  /** Running the transform on its own output changes nothing more. */
  lemma InjectedIdempotent(hs: seq<Header>)
    ensures Injected(Injected(hs, true), true) == Injected(hs, true)
  {
    match FirstMatch(hs)
    case Some(i) =>
      OverwrittenIsFixed(hs, i);
    case None =>
      AppendedIsFixed(hs);
  }

  /** Idempotence when the first match at i was overwritten: the scan stops at i again. */
  lemma OverwrittenIsFixed(hs: seq<Header>, i: nat)
    requires FirstMatch(hs) == Some(i)
    ensures Injected(Injected(hs, true), true) == Injected(hs, true)
  {
    var out := hs[i := hs[i].(value := "off")];
    assert Injected(hs, true) == out;
    FirstMatchByNames(hs, out);
    assert out[i := out[i].(value := "off")] == out;
  }

  /** Idempotence when PageSpeedOff was appended: the scan now stops at the appended header. */
  lemma AppendedIsFixed(hs: seq<Header>)
    requires FirstMatch(hs) == None
    ensures Injected(Injected(hs, true), true) == Injected(hs, true)
  {
    var out := hs + [PageSpeedOff];
    assert Injected(hs, true) == out;
    PageSpeedOffMatches();
    assert IsPageSpeed(out[|hs|].name);
    assert FirstMatch(out).value == |hs|;
    assert out[|hs| := out[|hs|].(value := "off")] == out;
  }

  /** A request that already says "PageSpeed: on" goes out saying "PageSpeed: off". */
  lemma ScenarioOnBecomesOff()
    ensures Injected([Header("PageSpeed", "on")], true) == [Header("PageSpeed", "off")]
  {
    PageSpeedOffMatches();
  }

  /** Only the first of two PageSpeed headers is overwritten: the scan stops at the first match. */
  lemma ScenarioDuplicateKept()
    ensures Injected([Header("pagespeed", "on"), Header("PAGESPEED", "on")], true)
         == [Header("pagespeed", "off"), Header("PAGESPEED", "on")]
  {
    var hs := [Header("pagespeed", "on"), Header("PAGESPEED", "on")];
    assert IsPageSpeed(hs[0].name) by {
      IsPageSpeedIff(hs[0].name);
    }
    InjectedOverwrites(hs, 0);
  }

  /** A request without a PageSpeed header, while allowed, goes out unchanged. */
  lemma ScenarioAllowedUnchanged()
    ensures Injected([Header("Accept", "*/*")], false) == [Header("Accept", "*/*")]
  {
  }
}
