/** The identity slice the sync takes out of a `BODY[HEADER.FIELDS (MESSAGE-ID)]`
    reply (the FETCH of section 6.4.5 of RFC 3501): the text from the first `<`
    through the first `>`, which for a well-formed header is the msg-id of section
    3.6.4 of RFC 5322. */
module MessageIds {
  import opened Text

  /** The slice `header[l:r+1]` where `l` and `r` are the positions `find` reports
      for `<` and `>`; either may be -1, and Python slicing then counts from the end. */
  function ExtractId(header: string): (id: string)
    ensures |id| <= |header|
    ensures '>' !in header ==> id == ""
  {
    var l := Find(header, '<');
    var r := Find(header, '>');
    PySlice(header, l, r + 1)
  }

  /** With a `<` before the first `>`, the result is exactly the bracketed token:
      it starts with `<`, ends with the first `>`, and holds no other `>`. */
  lemma BracketedToken(header: string)
    requires '<' in header && '>' in header
    requires Find(header, '<') < Find(header, '>')
    ensures var id := ExtractId(header);
      && id == header[Find(header, '<')..Find(header, '>') + 1]
      && |id| >= 2 && id[0] == '<' && id[|id| - 1] == '>'
      && '>' !in id[..|id| - 1]
  {
    var l := Find(header, '<');
    var r := Find(header, '>');
    assert ExtractId(header) == PySlice(header, l, r + 1);
    BracketSlice(header, l, r);
  }

  /** The slice from a `<` at `l` through the first `>`, at `r`, is bracketed and
      holds no other `>`. */
  lemma BracketSlice(h: string, l: int, r: int)
    requires 0 <= l < r < |h| && h[l] == '<' && h[r] == '>' && '>' !in h[..r]
    ensures var id := PySlice(h, l, r + 1);
      && id == h[l..r + 1]
      && |id| >= 2 && id[0] == '<' && id[|id| - 1] == '>'
      && '>' !in id[..|id| - 1]
  {
    var id := h[l..r + 1];
    forall i | 0 <= i < |id| - 1 ensures id[i] != '>' {
      assert id[i] == h[..r][l + i];
    }
  }

  /** A header line of the usual shape `Message-ID: <token>` followed by anything
      yields `<token>`, provided no angle bracket comes before or inside the token. */
  lemma {:induction false} MsgIdRoundTrip(prefix: string, token: string, suffix: string)
    requires '<' !in prefix && '>' !in prefix
    requires '>' !in token
    ensures ExtractId(prefix + "<" + token + ">" + suffix) == "<" + token + ">"
  {
    var h := prefix + "<" + token + ">" + suffix;
    var l := |prefix|;
    var r := |prefix| + 1 + |token|;
    assert h[l] == '<' && h[..l] == prefix;
    FindIsFirst(h, '<', l);
    assert h[r] == '>' && h[..r] == prefix + "<" + token;
    FindIsFirst(h, '>', r);
    assert h[l..r + 1] == "<" + token + ">";
  }

  /** `Find` reports a position exactly when the character is there and not earlier. */
  lemma FindIsFirst(s: string, c: char, i: nat)
    requires i < |s| && s[i] == c && c !in s[..i]
    ensures Find(s, c) == i
  {
  }

  /** Python's negative-index slicing makes a header with no `<` whose only `>` is
      its last character yield the one-character string ">". */
  lemma LoneClosingBracket(header: string)
    requires '<' !in header && |header| > 0 && header[|header| - 1] == '>'
    requires '>' !in header[..|header| - 1]
    ensures ExtractId(header) == ">"
  {
    FindIsFirst(header, '>', |header| - 1);
  }
  /** Without any `<`, the identity is `">"` when the first `>` is the header's
      last character and empty otherwise; a header that still carries its line
      ending therefore always yields the empty identity. */
  lemma NoOpeningBracket(header: string)
    requires '<' !in header && '>' in header
    ensures ExtractId(header) == (if Find(header, '>') == |header| - 1 then ">" else "")
    ensures Find(header, '>') < |header| - 1 ==> ExtractId(header) == ""
  {
    PySliceFromEnd(header, -1, Find(header, '>') + 1);
  }


  /** A `>` that comes before every `<` makes the slice empty. */
  lemma ClosingBeforeOpening(header: string)
    requires '<' in header && '>' in header
    requires Find(header, '>') < Find(header, '<')
    ensures ExtractId(header) == ""
  {
  }
}
