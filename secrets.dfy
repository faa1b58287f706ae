/** Redaction of secrets for the start-up log lines and validation of the
    bot token read at start-up. */
module Secrets {
  import opened PyText

  /** `visible` when the caller does not pass one. */
  const DefaultVisible: int := 8

  /** `mask_secret(s, visible)`: "EMPTY" for a missing or empty secret; a
      secret no longer than `visible` keeps its first character and every
      other character becomes '*'; a longer one keeps `s[:visible]`
      (Python slice) followed by "...". */
  function MaskSecret(s: Option<string>, visible: int): (r: string)
    ensures s.None? || s.value == [] ==> r == "EMPTY"
    ensures s.Some? && 0 < |s.value| <= visible ==>
      |r| == |s.value| && r[0] == s.value[0] && forall i :: 1 <= i < |r| ==> r[i] == '*'
    ensures s.Some? && 0 <= visible < |s.value| ==>
      r == s.value[..visible] + "..." && |r| == visible + 3
    ensures s.Some? && visible < 0 && s.value != [] ==>
      r == s.value[..ClampIndex(visible, |s.value|)] + "..."
  {
    if s.None? || s.value == [] then "EMPTY"
    else if |s.value| <= visible then [s.value[0]] + Repeat('*', |s.value| - 1)
    else Slice(s.value, 0, visible) + "..."
  }

  /** The first k characters of `r` are those of the secret `s`, and every
      later character of `r` is a '*' or a '.'. */
  ghost predicate ShowsOnlyPrefix(r: string, s: string, k: nat)
  {
    k <= |s| && k <= |r| && r[..k] == s[..k] &&
    forall i :: k <= i < |r| ==> r[i] == '*' || r[i] == '.'
  }

  /** The mask of a non-empty secret exposes at most its first
      max(visible, 1) characters and nothing else of it. (A negative
      `visible` counts from the end in Python and can expose more; every
      call in the program passes 8.) */
  lemma MaskShowsShortPrefix(s: string, visible: int)
    requires s != [] && visible >= 0
    ensures exists k: nat ::
      && k <= (if visible < 1 then 1 else visible)
      && ShowsOnlyPrefix(MaskSecret(Some(s), visible), s, k)
  {
    var r := MaskSecret(Some(s), visible);
    if |s| <= visible {
      assert ShowsOnlyPrefix(r, s, 1);
    } else {
      var k := ClampIndex(visible, |s|);
      assert r[..k] == s[..k];
      assert forall i :: k <= i < |r| ==> r[i] == '.';
      assert ShowsOnlyPrefix(r, s, k);
    }
  }

  datatype TokenError = InvalidOrMissing(shown: string)

  /** The start-up check of the bot token: it must be present, non-empty
      and contain ':'; otherwise start-up fails with an error that shows
      only the masked token. */
  function ValidateToken(token: Option<string>): (r: Result<string, TokenError>)
    ensures r.Success? <==> token.Some? && token.value != [] && ':' in token.value
    ensures r.Success? ==> r.value == token.value
    ensures r.Failure? ==> r.error.shown == MaskSecret(token, DefaultVisible)
  {
    if token.None? || token.value == [] || ':' !in token.value then
      Failure(InvalidOrMissing(MaskSecret(token, DefaultVisible)))
    else
      Success(token.value)
  }

  /** A rejected non-empty token is reported with at most its first eight
      characters visible. */
  lemma RejectedTokenShowsAtMostEight(token: string)
    requires ValidateToken(Some(token)).Failure?
    requires token != []
    ensures exists k: nat ::
      && k <= 8
      && ShowsOnlyPrefix(ValidateToken(Some(token)).error.shown, token, k)
  {
    MaskShowsShortPrefix(token, DefaultVisible);
  }
}
