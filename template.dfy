/** The HTML document that is rendered into the OG image: fixed HTML and CSS
    text with four interpolation points, filled verbatim (no HTML escaping)
    with the picture's data URL, the tag, the title and the author. */
module Template {
  import opened Wrappers

  /** Everything before the picture URL: the document head and the style sheet up to the
      `url(` of the avatar rule. */
  const Head: string := @"
    <!DOCTYPE html>
<html>
  <head>
    <style>
      * {
        box-sizing: border-box;
      }

      [debug] {
        * {
          outline: 1px solid red;
        }
      }

      :root {
        --color-foreground: hsl(0, 0%, 10%);
      }

      html {
        background-color: white;
        font-size: 16px;
        margin: 0;
        padding: 0;
      }

      body {
        background: linear-gradient(to top right, #dadbd4, #f7f7f3);
        color: var(--color-foreground);
        display: flex;
        flex-direction: column;
        font-family: -apple-system, BlinkMacSystemFont, sans-serif;
        height: 630px;
        margin: 0;
        padding: 4rem;
        width: 1200px;
        box-sizing: border-box;
      }

      .tag {
        align-self: flex-start;
        background: transparent;
        border: 1px solid var(--color-foreground);
        border-radius: 20px;
        font-size: 1rem;
        margin-top: 8rem;
        padding: 8px 16px;
      }

      .title {
        align-items: center;
        display: flex;
        flex: 1;
        font-size: 3.5rem;
        line-height: 1.2;
        margin-bottom: 4rem;
      }

      .author {
        align-items: center;
        display: flex;
        gap: 1rem;
      }

      .profile-pic {
        background: url("

  /** From the end of the URL to the opening of the tag element. */
  const AfterUrl: string := @")
          center center;
        background-size: cover;
        border: 1px solid white;
        border-radius: 50%;
        height: 6rem;
        width: 6rem;
      }

      .author-name {
        font-size: 2rem;
      }
    </style>
  </head>
  <body>
    <div class=""tag"">"

  /** Between the tag and the title. */
  const AfterTag: string := @"</div>
    <div class=""title"">"

  /** Between the title and the author name, including the empty avatar element. */
  const AfterTitle: string := @"</div>
    <div class=""author"">
      <div class=""profile-pic""></div>
      <div class=""author-name"">"

  /** After the author name: the closing elements and the trailing indentation. */
  const Tail: string := @"</div>
    </div>
  </body>
</html>
  "

  /** The fixed text of a template with four interpolation points. */
  datatype Layout = Layout(head: string, afterUrl: string, afterTag: string,
                           afterTitle: string, tail: string)

  /** The number of characters of fixed text. */
  function FixedLength(l: Layout): nat {
    |l.head| + |l.afterUrl| + |l.afterTag| + |l.afterTitle| + |l.tail|
  }

  /** The template of the OG image document. */
  const OgLayout := Layout(Head, AfterUrl, AfterTag, AfterTitle, Tail)

  /** A template filled with a URL and three texts, each spliced in as it is. */
  function Fill(l: Layout, url: string, tag: string, title: string, author: string): (r: string)
    ensures |r| == FixedLength(l) + |url| + |tag| + |title| + |author|
    ensures |l.head| <= |r| && r[..|l.head|] == l.head
    ensures r[|r| - |l.tail|..] == l.tail
  {
    l.head + (url + (l.afterUrl + (tag + (l.afterTag + (title + (l.afterTitle + (author + l.tail)))))))
  }

  /** The OG image document for a data URL and the three texts. */
  function Html(url: string, tag: string, title: string, author: string): (r: string)
    ensures |r| == FixedLength(OgLayout) + |url| + |tag| + |title| + |author|
  {
    Fill(OgLayout, url, tag, title, author)
  }

  /** `s` begins with `w`. */
  predicate StartsWith(s: string, w: string) {
    |w| <= |s| && s[..|w|] == w
  }

  /** Reads the four values back out of a filled template, given their
      lengths: `Some` exactly when the fixed text stands at the positions those
      lengths imply. */
  function Extract(l: Layout, h: string, nu: nat, nt: nat, nti: nat, na: nat)
    : Option<(string, string, string, string)>
  {
    if !StartsWith(h, l.head) then None else
    var r1 := h[|l.head|..];
    if |r1| < nu then None else
    var r2 := r1[nu..];
    if !StartsWith(r2, l.afterUrl) then None else
    var r3 := r2[|l.afterUrl|..];
    if |r3| < nt then None else
    var r4 := r3[nt..];
    if !StartsWith(r4, l.afterTag) then None else
    var r5 := r4[|l.afterTag|..];
    if |r5| < nti then None else
    var r6 := r5[nti..];
    if !StartsWith(r6, l.afterTitle) then None else
    var r7 := r6[|l.afterTitle|..];
    if |r7| < na || r7[na..] != l.tail then None else
    Some((r1[..nu], r3[..nt], r5[..nti], r7[..na]))
  }

  lemma SplitAt(a: string, b: string)
    ensures (a + b)[..|a|] == a && (a + b)[|a|..] == b
  {
  }

  lemma Rejoin(s: string, n: nat)
    requires n <= |s|
    ensures s == s[..n] + s[n..]
  {
  }

  /** A filled template holds each value unmodified at its interpolation
      point, and the fixed text everywhere else. */
  lemma ExtractFill(l: Layout, url: string, tag: string, title: string, author: string)
    ensures Extract(l, Fill(l, url, tag, title, author), |url|, |tag|, |title|, |author|)
            == Some((url, tag, title, author))
  {
    var r7 := author + l.tail;
    var r6 := l.afterTitle + r7;
    var r5 := title + r6;
    var r4 := l.afterTag + r5;
    var r3 := tag + r4;
    var r2 := l.afterUrl + r3;
    var r1 := url + r2;
    SplitAt(l.head, r1);
    SplitAt(url, r2);
    SplitAt(l.afterUrl, r3);
    SplitAt(tag, r4);
    SplitAt(l.afterTag, r5);
    SplitAt(title, r6);
    SplitAt(l.afterTitle, r7);
    SplitAt(author, l.tail);
  }

  /** Whatever `Extract` accepts is the filled template of what it reads. */
  lemma ExtractSound(l: Layout, h: string, nu: nat, nt: nat, nti: nat, na: nat)
    requires Extract(l, h, nu, nt, nti, na).Some?
    ensures var (u, t, ti, a) := Extract(l, h, nu, nt, nti, na).value;
            h == Fill(l, u, t, ti, a) && |u| == nu && |t| == nt && |ti| == nti && |a| == na
  {
    var r1 := h[|l.head|..];
    var r2 := r1[nu..];
    var r3 := r2[|l.afterUrl|..];
    var r4 := r3[nt..];
    var r5 := r4[|l.afterTag|..];
    var r6 := r5[nti..];
    var r7 := r6[|l.afterTitle|..];
    Rejoin(r7, na);
    Rejoin(r6, |l.afterTitle|);
    Rejoin(r5, nti);
    Rejoin(r4, |l.afterTag|);
    Rejoin(r3, nt);
    Rejoin(r2, |l.afterUrl|);
    Rejoin(r1, nu);
    Rejoin(h, |l.head|);
  }

  /** The OG image document holds the data URL, the tag, the title and the
      author unmodified at their interpolation points and the fixed text
      everywhere else. */
  lemma HtmlLayout(url: string, tag: string, title: string, author: string)
    ensures Extract(OgLayout, Html(url, tag, title, author), |url|, |tag|, |title|, |author|)
            == Some((url, tag, title, author))
  {
    ExtractFill(OgLayout, url, tag, title, author);
  }

  /** Values of the same lengths give documents that agree outside the four
      slots, so equal documents come from equal values. */
  lemma HtmlInjective(u: string, t: string, ti: string, a: string,
                      u': string, t': string, ti': string, a': string)
    requires |u| == |u'| && |t| == |t'| && |ti| == |ti'| && |a| == |a'|
    requires Html(u, t, ti, a) == Html(u', t', ti', a')
    ensures u == u' && t == t' && ti == ti' && a == a'
  {
    ExtractFill(OgLayout, u, t, ti, a);
    ExtractFill(OgLayout, u', t', ti', a');
  }

  lemma FillNoEscaping(l: Layout, url: string, x: string, y: string, z: string, author: string)
    ensures Fill(l, url, x + l.afterTag + y, z, author) == Fill(l, url, x, y + l.afterTag + z, author)
  {
  }

  /** The values are not escaped: a tag that contains the markup between tag
      and title yields the same document as a shorter tag and a longer
      title. */
  lemma NoEscaping(url: string, x: string, y: string, z: string, author: string)
    ensures Html(url, x + AfterTag + y, z, author) == Html(url, x, y + AfterTag + z, author)
  {
    FillNoEscaping(OgLayout, url, x, y, z, author);
  }
}
