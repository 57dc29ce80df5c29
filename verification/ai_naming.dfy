/** `get_ai_generated_name`: the fallbacks and the excerpt around the call to
    the generative service. The service itself, and the wording of the
    prompt it receives, are an oracle. */
module AiNaming {
  import opened Ascii
  import opened Wrappers
  import Sanitizer

  /** Returned for empty or whitespace-only text, without calling the
      service. */
  const DocumentScan: string := "document_scan"

  /** Returned when the service call raises. */
  const NamingFailed: string := "ai_naming_failed"

  /** How much of the text is embedded in the prompt. */
  const ExcerptLength: nat := 2000

  /** The generative service, seen through the only part of the prompt that
      varies: the excerpt. `None` is a raised exception; `Some(reply)` is the
      reply's text. */
  type NameService = string -> Option<string>

  /** `text[:2000]`. */
  function Excerpt(text: string): (e: string)
    ensures |e| == if |text| <= ExcerptLength then |text| else ExcerptLength
    ensures e == text[..|e|]
    ensures |text| <= ExcerptLength ==> e == text
  {
    if |text| <= ExcerptLength then text else text[..ExcerptLength]
  }

  /** Number of leading whitespace characters. */
  function LeadingSpaces(s: string): (k: nat)
    ensures k <= |s|
    ensures IsBlank(s[..k])
    ensures k == |s| || !IsSpace(s[k])
  {
    if s == [] || !IsSpace(s[0]) then 0
    else
      var k := 1 + LeadingSpaces(s[1..]);
      assert s[..k] == [s[0]] + s[1..][..k - 1];
      k
  }

  /** Where the trailing whitespace starts. */
  function TrailingStart(s: string): (k: nat)
    ensures k <= |s|
    ensures IsBlank(s[k..])
    ensures k == 0 || !IsSpace(s[k - 1])
  {
    if s == [] || !IsSpace(s[|s| - 1]) then |s|
    else
      var k := TrailingStart(s[..|s| - 1]);
      assert s[k..] == s[..|s| - 1][k..] + [s[|s| - 1]];
      k
  }

  /** `s.strip()`: the middle of `s` once all leading and trailing whitespace
      is cut away. */
  function Strip(s: string): (r: string)
    ensures exists a, b :: 0 <= a <= b <= |s| && r == s[a..b] && IsBlank(s[..a]) && IsBlank(s[b..])
    ensures r == [] || (!IsSpace(r[0]) && !IsSpace(r[|r| - 1]))
  {
    var a := LeadingSpaces(s);
    var b := a + TrailingStart(s[a..]);
    assert s[b..] == s[a..][b - a..];
    assert a < b ==> s[a..b][0] == s[a] && s[a..b][b - a - 1] == s[a..][b - a - 1];
    s[a..b]
  }

  /** `text.strip() == ""` is exactly "the text is blank". */
  lemma StripEmptyIffBlank(s: string)
    ensures Strip(s) == [] <==> IsBlank(s)
  {
    if Strip(s) == [] {
      var a, b :| 0 <= a <= b <= |s| && Strip(s) == s[a..b] && IsBlank(s[..a]) && IsBlank(s[b..]);
      assert s == s[..a] + s[b..];
    }
  }

  /** `.replace('\n', '_')`. */
  function ReplaceNewlines(s: string): (r: string)
    ensures |r| == |s|
    ensures forall i :: 0 <= i < |s| ==> r[i] == (if s[i] == '\n' then '_' else s[i])
  {
    seq(|s|, i requires 0 <= i < |s| => if s[i] == '\n' then '_' else s[i])
  }

  /** `get_ai_generated_name(text)`. Apart from the two fixed tokens, the
      name is the service's reply trimmed of surrounding whitespace, with no
      line break left in it. */
  function GenerateName(text: string, service: NameService): (name: string)
    ensures name == DocumentScan || name == NamingFailed || Trimmed(name)
    ensures IsBlank(text) ==> name == DocumentScan
    ensures !IsBlank(text) && service(Excerpt(text)) == None ==> name == NamingFailed
    ensures !IsBlank(text) && service(Excerpt(text)).Some? ==>
      name == ReplaceNewlines(Strip(service(Excerpt(text)).value))
  {
    if IsBlank(text) then DocumentScan
    else match service(Excerpt(text))
      case None => NamingFailed
      case Some(reply) => ReplaceNewlines(Strip(reply))
  }

  /** No line break, and no whitespace at either end. */
  predicate Trimmed(s: string) {
    (forall i :: 0 <= i < |s| ==> s[i] != '\n')
    && (s == [] || (!IsSpace(s[0]) && !IsSpace(s[|s| - 1])))
  }

  /** Empty or whitespace-only text yields `document_scan` whatever the
      service would have said: the service is not consulted. */
  lemma BlankTextNeedsNoService(text: string, s1: NameService, s2: NameService)
    requires IsBlank(text)
    ensures GenerateName(text, s1) == DocumentScan
    ensures GenerateName(text, s1) == GenerateName(text, s2)
  {
  }

  /** A failing service yields `ai_naming_failed` for any text that is not
      blank. */
  lemma FailingServiceYieldsSentinel(text: string, service: NameService)
    requires !IsBlank(text)
    requires service(Excerpt(text)) == None
    ensures GenerateName(text, service) == NamingFailed
  {
  }

  /** Only the first 2000 characters reach the service: texts that agree on
      them (and are not blank) get the same name. */
  lemma OnlyExcerptMatters(t1: string, t2: string, service: NameService)
    requires !IsBlank(t1) && !IsBlank(t2)
    requires |t1| >= ExcerptLength && |t2| >= ExcerptLength
    requires t1[..ExcerptLength] == t2[..ExcerptLength]
    ensures GenerateName(t1, service) == GenerateName(t2, service)
  {
  }

  /** Both fixed tokens are already clean, so they survive sanitising and a
      file that reaches them is never skipped for an empty name. */
  lemma SentinelsSurviveSanitizing(token: string)
    requires token == DocumentScan || token == NamingFailed
    ensures Sanitizer.Sanitize(token) == token
  {
    assert Sanitizer.AllClean(token);
    Sanitizer.CleanIsFixedPoint(token);
  }
}
