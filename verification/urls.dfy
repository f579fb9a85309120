/**
  The image host rewrite: every `via.placeholder.com` in a URL becomes
  `dummyimage.com`. The app applies it when it builds the photo list and
  again each time it renders an image, so it has to be idempotent.
 */
module Urls {
  import opened Text

  const OldHost: string := "via.placeholder.com"
  const NewHost: string := "dummyimage.com"

  /** The new host cannot start a fresh occurrence of the old one: it holds no 'v', and the rest of the old host never lines up with it. */
  lemma NewHostNeverRecreatesOldHost()
    ensures forall k :: 0 <= k < |NewHost| ==> NewHost[k] != OldHost[0]
    ensures NeverAligns(OldHost[1..], NewHost)
  {
    var w := OldHost[1..];
    assert w == "ia.placeholder.com";
    forall i | 0 <= i < |w|
      ensures !(w[i..] <= NewHost) && !(NewHost <= w[i..])
    {
      if i == 11 {
        assert w[i..][1] == 'e' != NewHost[1];
      } else {
        assert w[i..][0] == w[i] != 'd' == NewHost[0];
      }
    }
  }

  /** `url.replace("via.placeholder.com", "dummyimage.com")`. */
  function RewriteHost(url: string): (r: string)
    ensures !Contains(r, OldHost, false)
    ensures r == url <==> !Contains(url, OldHost, false)
  {
    NewHostNeverRecreatesOldHost();
    ReplaceLeavesNoOccurrence(url, OldHost, NewHost);
    if Contains(url, OldHost, false) then
      ReplaceShortens(url, OldHost, NewHost);
      ReplaceAll(url, OldHost, NewHost)
    else
      ReplaceAll(url, OldHost, NewHost)
  }

  /** Rewriting an already rewritten URL changes nothing. */
  lemma RewriteHostIdempotent(url: string)
    ensures RewriteHost(RewriteHost(url)) == RewriteHost(url)
  {
  }
}
