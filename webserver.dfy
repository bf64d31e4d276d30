/** The HTTP front end of the controller: the request-line tokenizer and
    path normaliser of `webserver_recv`, the MIME type lookup, the error
    reply and the placement of the response header in front of a loaded
    file. Sockets and the file store calls are inputs. */
module Webserver {
  import opened Wrappers

  // ---------------------------------------------------------------------
  // Decimal numbers, as `%d` prints a non-negative int.

  function Digit(n: nat): char
    requires n < 10
  {
    ('0' as int + n) as char
  }

  /** `%d` of a non-negative number, without leading zeros. */
  function Decimal(n: nat): (s: seq<char>)
    ensures |s| >= 1
    ensures forall k :: 0 <= k < |s| ==> '0' <= s[k] <= '9'
  {
    if n < 10 then [Digit(n)] else Decimal(n / 10) + [Digit(n % 10)]
  }

  /** The value of a string of decimal digits. */
  function DecimalValue(s: seq<char>): nat
    requires forall k :: 0 <= k < |s| ==> '0' <= s[k] <= '9'
  {
    if s == [] then 0 else 10 * DecimalValue(s[..|s| - 1]) + (s[|s| - 1] as int - '0' as int)
  }

  /** Reading the printed number back gives the number. */
  lemma {:induction false} DecimalRoundTrip(n: nat)
    ensures DecimalValue(Decimal(n)) == n
  {
    if n >= 10 {
      var s := Decimal(n);
      assert s[..|s| - 1] == Decimal(n / 10);
      DecimalRoundTrip(n / 10);
    }
  }

  function Pow10(k: nat): (p: nat)
    ensures p >= 1
  {
    if k == 0 then 1 else 10 * Pow10(k - 1)
  }

  /** A number prints in at most `k` digits exactly when it is below 10^k. */
  lemma {:induction false} DecimalLength(n: nat, k: nat)
    requires k >= 1
    ensures |Decimal(n)| <= k <==> n < Pow10(k)
  {
    if n >= 10 && k >= 2 {
      DecimalLength(n / 10, k - 1);
    } else if n >= 10 {
      assert Pow10(1) == 10;
    } else if k >= 2 {
      assert Pow10(k) >= 10 by { PowAtLeast(k); }
    } else {
      assert Pow10(1) == 10;
    }
  }

  lemma {:induction false} PowAtLeast(k: nat)
    requires k >= 1
    ensures Pow10(k) >= 10
  {
    if k > 1 {
      PowAtLeast(k - 1);
    }
  }

  // ---------------------------------------------------------------------
  // get_mime_type.

  /** One row of the MIME table: the extension, its length, the type. */
  datatype MimeEntry = MimeEntry(ext: seq<char>, len: int, mimeType: seq<char>)

  const MimeTypes: seq<MimeEntry> := [
    MimeEntry("html", 4, "text/html"),
    MimeEntry("css", 3, "text/css"),
    MimeEntry("js", 2, "text/javascript")
  ]

  /** The path is longer than the extension, the extension ends it and a
      dot comes just before the extension. */
  predicate HasExt(path: seq<char>, ext: seq<char>)
  {
    |path| > |ext| && path[|path| - |ext| - 1] == '.' && path[|path| - |ext|..] == ext
  }

  /** The table search of `get_mime_type` from row `k` on. */
  function MimeSearch(path: seq<char>, k: nat): (r: Option<seq<char>>)
    requires k <= |MimeTypes|
    ensures r.Some? <==> exists j :: k <= j < |MimeTypes| && HasExt(path, MimeTypes[j].ext)
    ensures r.Some? ==> exists j :: k <= j < |MimeTypes| && HasExt(path, MimeTypes[j].ext) && r.value == MimeTypes[j].mimeType
    decreases |MimeTypes| - k
  {
    if k == |MimeTypes| then None
    else
      var e := MimeTypes[k];
      if |path| <= e.len then MimeSearch(path, k + 1)
      else if path[|path| - e.len - 1] != '.' then MimeSearch(path, k + 1)
      else if path[|path| - e.len..] == e.ext then Some(e.mimeType)
      else MimeSearch(path, k + 1)
  }

  /** `get_mime_type(path, len)`: `text/html`, `text/css` or
      `text/javascript` for a path ending in `.html`, `.css` or `.js`, and
      no type for anything else. */
  function GetMimeType(path: seq<char>): (r: Option<seq<char>>)
    ensures r == Some("text/html") <==> HasExt(path, "html")
    ensures r == Some("text/css") <==> HasExt(path, "css")
    ensures r == Some("text/javascript") <==> HasExt(path, "js")
    ensures r.None? <==> !HasExt(path, "html") && !HasExt(path, "css") && !HasExt(path, "js")
  {
    var r := MimeSearch(path, 0);
    assert MimeTypes[0].ext == "html" && MimeTypes[1].ext == "css" && MimeTypes[2].ext == "js";
    r
  }

  // ---------------------------------------------------------------------
  // The request-line split of webserver_recv.

  /** The states of the split: method, path, version, headers. */
  const MethodTok: nat := 0
  const PathTok: nat := 1
  const VersionTok: nat := 2
  const HeadersTok: nat := 3

  /** A `text_entry`: where the text starts (no start is a null pointer)
      and its length. */
  datatype Token = Token(text: Option<nat>, len: int)

  /** The state of the split: the state index, the four entries and the
      receive buffer with the terminators written so far. */
  datatype Split = Split(s: nat, e: seq<Token>, buf: seq<char>)

  /** A split of `d` in progress at position `i`: the state index is at most
      `headers`, the current entry has a start at or before `i`, and every
      entry lies inside the buffer. */
  predicate Good(d: seq<char>, st: Split, i: nat)
  {
    && |st.e| == 4 && st.s <= HeadersTok && |st.buf| == |d|
    && st.e[MethodTok].text == Some(0)
    && st.e[st.s].text.Some? && st.e[st.s].text.value <= i
    && (forall k :: 0 <= k < 4 && st.e[k].text.Some? ==>
          0 <= st.e[k].len && st.e[k].text.value + st.e[k].len <= |d|)
    && st.e[HeadersTok].len == 0
    && forall k :: st.s < k < 4 ==> st.e[k].len == 0
  }

  /** The entries when the loop starts: the method begins at byte 0. */
  function Start(d: seq<char>): (st: Split)
    ensures Good(d, st, 0)
  {
    Split(MethodTok, [Token(Some(0), 0), Token(None, 0), Token(None, 0), Token(None, 0)], d)
  }

  /** The first position at or after `i` that is not a space. */
  function SkipSpaces(d: seq<char>, i: nat): (j: nat)
    requires i <= |d|
    ensures i <= j <= |d| && (j < |d| ==> d[j] != ' ')
    ensures forall k :: i <= k < j ==> d[k] == ' '
    decreases |d| - i
  {
    if i < |d| && d[i] == ' ' then SkipSpaces(d, i + 1) else i
  }

  /** The split loop from position `i` of the original bytes `d`. Before the
      header state a space ends the current entry (and is overwritten with
      a NUL), the run of spaces is skipped and the next entry starts at the
      first byte after it; that byte itself is then stepped over by the
      loop's increment. The first newline ends the loop: in the version
      state it ends the version, and the headers start after it. The
      state index never passes `headers`. */
  function Scan(d: seq<char>, i: nat, st: Split): (r: Split)
    requires i <= |d| + 1 && Good(d, st, i)
    ensures Good(d, r, |d| + 1)
    decreases |d| + 1 - i
  {
    if i >= |d| then st
    else
      var t := st.e[st.s].text.value;
      if d[i] == ' ' && st.s < HeadersTok then
        var j := SkipSpaces(d, i);
        var e1 := st.e[st.s := st.e[st.s].(len := i - t)];
        var e2 := e1[st.s + 1 := e1[st.s + 1].(text := Some(j))];
        Scan(d, j + 1, Split(st.s + 1, e2, st.buf[i := '\0']))
      else if d[i] == '\n' then
        var st1 :=
          if st.s == VersionTok then Split(st.s, st.e[VersionTok := st.e[VersionTok].(len := i - t)], st.buf[i := '\0'])
          else st;
        st1.(e := st1.e[HeadersTok := st1.e[HeadersTok].(text := Some(i + 1))])
      else Scan(d, i + 1, st)
  }

  /** The split of the whole receive buffer. */
  function SplitOf(d: seq<char>): (r: Split)
    ensures Good(d, r, |d| + 1)
  {
    Scan(d, 0, Start(d))
  }

  /** The loop of `webserver_recv` that extracts method, path, version and
      headers, writing a NUL after each of the first three. */
  method SplitRequest(data: array<char>) returns (s: nat, e: seq<Token>)
    modifies data
    ensures Split(s, e, data[..]) == SplitOf(old(data[..]))
  {
    ghost var d := data[..];
    e := [Token(Some(0), 0), Token(None, 0), Token(None, 0), Token(None, 0)];
    s := MethodTok;
    var i := 0;
    while i < data.Length
      invariant i <= data.Length + 1 && Good(d, Split(s, e, data[..]), i)
      invariant forall k :: i <= k < data.Length ==> data[k] == d[k]
      invariant SplitOf(d) == Scan(d, i, Split(s, e, data[..]))
      decreases data.Length + 1 - i
    {
      var c := data[i];
      var t := e[s].text.value;
      if c == ' ' && s < HeadersTok {
        var end := i;
        while i < data.Length && data[i] == ' '
          invariant end <= i <= data.Length
          invariant forall k :: i <= k < data.Length ==> data[k] == d[k]
          invariant SkipSpaces(d, end) == SkipSpaces(d, i)
        {
          i := i + 1;
        }
        data[end] := '\0';
        e := e[s := e[s].(len := end - t)];
        s := s + 1;
        e := e[s := e[s].(text := Some(i))];
      } else if c == '\n' {
        if s == VersionTok {
          data[i] := '\0';
          e := e[s := e[s].(len := i - t)];
        }
        e := e[HeadersTok := e[HeadersTok].(text := Some(i + 1))];
        return;
      }
      i := i + 1;
    }
  }

  /** A token of a well-formed request line: not empty, no space and no
      newline. */
  predicate Word(w: seq<char>)
  {
    |w| > 0 && forall k :: 0 <= k < |w| ==> w[k] != ' ' && w[k] != '\n'
  }

  /** A non-empty run of spaces. */
  predicate Spaces(sp: seq<char>)
  {
    |sp| > 0 && forall k :: 0 <= k < |sp| ==> sp[k] == ' '
  }

  /** Bytes that are neither spaces nor newlines leave the split alone. */
  lemma {:induction false} ScanWord(d: seq<char>, i: nat, end: nat, st: Split)
    requires i <= end <= |d| && Good(d, st, i)
    requires forall k :: i <= k < end ==> d[k] != ' ' && d[k] != '\n'
    ensures Good(d, st, end) && Scan(d, i, st) == Scan(d, end, st)
    decreases end - i
  {
    if i < end {
      ScanWord(d, i + 1, end, st);
    }
  }

  /** A run of `n` spaces followed by a non-space is skipped whole. */
  lemma {:induction false} SkipRun(d: seq<char>, i: nat, n: nat)
    requires i + n < |d| && d[i + n] != ' '
    requires forall k :: i <= k < i + n ==> d[k] == ' '
    ensures SkipSpaces(d, i) == i + n
    decreases n
  {
    if n > 0 {
      SkipRun(d, i + 1, n - 1);
    }
  }

  /** A space run from `i` to `j` in a state before `headers`: the current
      entry ends at `i` with a NUL there, the next starts at `j` and the
      loop goes on at `j + 1`. */
  lemma TokenEnd(d: seq<char>, i: nat, j: nat, st: Split, st1: Split)
    requires i < j < |d| && Good(d, st, i) && st.s < HeadersTok
    requires forall k :: i <= k < j ==> d[k] == ' '
    requires d[j] != ' '
    requires st1 == Split(st.s + 1,
                          st.e[st.s := Token(st.e[st.s].text, i - st.e[st.s].text.value)][st.s + 1 := Token(Some(j), 0)],
                          st.buf[i := '\0'])
    ensures Good(d, st1, j + 1) && Scan(d, i, st) == Scan(d, j + 1, st1)
  {
    SkipRun(d, i, j - i);
  }

  /** The newline in the version state ends the version with a NUL and
      starts the headers after it. */
  lemma LineEnd(d: seq<char>, nl: nat, st: Split, r: Split)
    requires nl < |d| && Good(d, st, nl) && st.s == VersionTok && d[nl] == '\n'
    requires r == Split(VersionTok,
                        st.e[VersionTok := Token(st.e[VersionTok].text, nl - st.e[VersionTok].text.value)]
                            [HeadersTok := Token(Some(nl + 1), 0)],
                        st.buf[nl := '\0'])
    ensures Scan(d, nl, st) == r
  {
  }

  /** No space and no newline in `d[lo..hi]`. */
  predicate Wordy(d: seq<char>, lo: nat, hi: nat)
    requires lo <= hi <= |d|
  {
    forall k :: lo <= k < hi ==> d[k] != ' ' && d[k] != '\n'
  }

  /** The first token and the spaces after it. */
  lemma SplitFirst(d: seq<char>, e0: nat, a1: nat, st1: Split)
    requires 0 < e0 < a1 < |d| && Wordy(d, 0, e0) && d[a1] != ' '
    requires forall k :: e0 <= k < a1 ==> d[k] == ' '
    requires st1 == Split(PathTok, [Token(Some(0), e0), Token(Some(a1), 0), Token(None, 0), Token(None, 0)], d[e0 := '\0'])
    ensures Good(d, st1, a1 + 1) && SplitOf(d) == Scan(d, a1 + 1, st1)
  {
    var st0 := Start(d);
    ScanWord(d, 0, e0, st0);
    TokenEnd(d, e0, a1, st0, st1);
  }

  /** The rest of the path token and the spaces after it. */
  lemma SplitSecond(d: seq<char>, e0: nat, a1: nat, e1: nat, a2: nat, st1: Split, st2: Split)
    requires a1 < e1 < a2 < |d| && Wordy(d, a1, e1) && d[a2] != ' '
    requires forall k :: e1 <= k < a2 ==> d[k] == ' '
    requires st1 == Split(PathTok, [Token(Some(0), e0), Token(Some(a1), 0), Token(None, 0), Token(None, 0)], st1.buf)
    requires Good(d, st1, a1 + 1)
    requires st2 == Split(VersionTok, [Token(Some(0), e0), Token(Some(a1), e1 - a1), Token(Some(a2), 0), Token(None, 0)],
                          st1.buf[e1 := '\0'])
    ensures Good(d, st2, a2 + 1) && Scan(d, a1 + 1, st1) == Scan(d, a2 + 1, st2)
  {
    ScanWord(d, a1 + 1, e1, st1);
    TokenEnd(d, e1, a2, st1, st2);
  }

  /** The rest of the version token and the newline. */
  lemma SplitThird(d: seq<char>, a2: nat, nl: nat, st2: Split)
    requires a2 < nl < |d| && Wordy(d, a2, nl) && d[nl] == '\n'
    requires Good(d, st2, a2 + 1) && st2.s == VersionTok && st2.e[VersionTok].text == Some(a2)
    ensures Scan(d, a2 + 1, st2)
         == Split(VersionTok, st2.e[VersionTok := Token(Some(a2), nl - a2)][HeadersTok := Token(Some(nl + 1), 0)],
                  st2.buf[nl := '\0'])
  {
    ScanWord(d, a2 + 1, nl, st2);
    LineEnd(d, nl, st2, Split(VersionTok, st2.e[VersionTok := Token(Some(a2), nl - a2)][HeadersTok := Token(Some(nl + 1), 0)],
                              st2.buf[nl := '\0']));
  }

  /** The split of a line with tokens at `[0, e0)`, `[a1, e1)` and
      `[a2, nl)`, space runs between them and a newline at `nl`. */
  lemma SplitLine(d: seq<char>, e0: nat, a1: nat, e1: nat, a2: nat, nl: nat)
    requires 0 < e0 < a1 < e1 < a2 < nl < |d|
    requires Wordy(d, 0, e0) && Wordy(d, a1, e1) && Wordy(d, a2, nl)
    requires forall k :: e0 <= k < a1 ==> d[k] == ' '
    requires forall k :: e1 <= k < a2 ==> d[k] == ' '
    requires d[nl] == '\n'
    ensures SplitOf(d) == Split(VersionTok,
                                [Token(Some(0), e0), Token(Some(a1), e1 - a1), Token(Some(a2), nl - a2), Token(Some(nl + 1), 0)],
                                d[e0 := '\0'][e1 := '\0'][nl := '\0'])
  {
    var st1 := Split(PathTok, [Token(Some(0), e0), Token(Some(a1), 0), Token(None, 0), Token(None, 0)], d[e0 := '\0']);
    SplitFirst(d, e0, a1, st1);
    var st2 := Split(VersionTok, [Token(Some(0), e0), Token(Some(a1), e1 - a1), Token(Some(a2), 0), Token(None, 0)],
                     d[e0 := '\0'][e1 := '\0']);
    SplitSecond(d, e0, a1, e1, a2, st1, st2);
    SplitThird(d, a2, nl, st2);
    assert st2.e[VersionTok := Token(Some(a2), nl - a2)][HeadersTok := Token(Some(nl + 1), 0)]
        == [Token(Some(0), e0), Token(Some(a1), e1 - a1), Token(Some(a2), nl - a2), Token(Some(nl + 1), 0)];
  }

  /** The request-line round trip: for `m sp p sp v \n rest` with three
      well-formed tokens separated by runs of spaces, the split finds the
      three tokens where they are, with their lengths, puts a NUL after each
      and starts the headers after the newline. */
  lemma SplitRoundTrip(m: seq<char>, sp1: seq<char>, p: seq<char>, sp2: seq<char>, v: seq<char>, rest: seq<char>,
                       d: seq<char>, a1: nat, a2: nat, nl: nat)
    requires Word(m) && Word(p) && Word(v) && Spaces(sp1) && Spaces(sp2)
    requires d == m + sp1 + p + sp2 + v + "\n" + rest
    requires a1 == |m| + |sp1| && a2 == a1 + |p| + |sp2| && nl == a2 + |v|
    ensures SplitOf(d).s == VersionTok
    ensures SplitOf(d).e == [Token(Some(0), |m|), Token(Some(a1), |p|), Token(Some(a2), |v|), Token(Some(nl + 1), 0)]
    ensures SplitOf(d).buf == d[|m| := '\0'][a1 + |p| := '\0'][nl := '\0']
  {
    assert Wordy(d, 0, |m|) by {
      forall k | 0 <= k < |m| ensures d[k] == m[k] { }
    }
    assert forall k :: |m| <= k < a1 ==> d[k] == ' ' by {
      forall k | |m| <= k < a1 ensures d[k] == sp1[k - |m|] { }
    }
    assert Wordy(d, a1, a1 + |p|) by {
      forall k | a1 <= k < a1 + |p| ensures d[k] == p[k - a1] { }
    }
    assert forall k :: a1 + |p| <= k < a2 ==> d[k] == ' ' by {
      forall k | a1 + |p| <= k < a2 ensures d[k] == sp2[k - a1 - |p|] { }
    }
    assert Wordy(d, a2, nl) by {
      forall k | a2 <= k < nl ensures d[k] == v[k - a2] { }
    }
    assert d[nl] == '\n';
    SplitLine(d, |m|, a1, a1 + |p|, a2, nl);
  }

  // ---------------------------------------------------------------------
  // The GET check and path normalisation.

  function LowerChar(c: char): char
  {
    if 'A' <= c <= 'Z' then (c as int + 0x20) as char else c
  }

  predicate NoUpper(s: seq<char>)
  {
    forall k :: 0 <= k < |s| ==> !('A' <= s[k] <= 'Z')
  }

  /** The served name for a requested path: `/` is `index.html`; otherwise
      one leading `/` is dropped and `A`..`Z` become `a`..`z`, so the name
      has no upper-case letter, and every other byte is kept. */
  function NormalForm(p: seq<char>): (r: seq<char>)
    requires |p| >= 1
    ensures NoUpper(r)
    ensures p != "/" ==>
      var q := if p[0] == '/' then p[1..] else p;
      |r| == |q| && forall k :: 0 <= k < |q| ==> r[k] == q[k] || ('A' <= q[k] <= 'Z' && r[k] as int == q[k] as int + 0x20)
  {
    if p == "/" then "index.html"
    else
      var q := if p[0] == '/' then p[1..] else p;
      seq(|q|, k requires 0 <= k < |q| => LowerChar(q[k]))
  }

  /** The outcome of the request line: not a GET (or no path), or a GET of
      a normalised name. */
  datatype Request = BadRequest | Get(path: seq<char>)

  /** `GET` is the method, of length 3, and the path is not empty. */
  predicate IsGet(r: Split)
  {
    && |r.e| == 4
    && r.e[MethodTok] == Token(Some(0), 3) && |r.buf| >= 3 && r.buf[..3] == "GET"
    && r.e[PathTok].text.Some? && r.e[PathTok].len != 0
  }

  /** The request `webserver_recv` serves for the received bytes `d`. */
  function RequestOf(d: seq<char>): (q: Request)
    ensures q.Get? ==> NoUpper(q.path) && |d| >= 3 && d[..3] == "GET"
  {
    var r := SplitOf(d);
    if IsGet(r) then
      var t, n := r.e[PathTok].text.value, r.e[PathTok].len;
      assert r.buf[..3] == d[..3] by {
        forall k | 0 <= k < 3 ensures r.buf[k] == d[k] {
          ScanKeeps(d, 0, Start(d), k);
        }
      }
      Get(NormalForm(r.buf[t .. t + n]))
    else BadRequest
  }

  /** The split only ever writes NULs into the buffer. */
  lemma {:induction false} ScanKeeps(d: seq<char>, i: nat, st: Split, k: nat)
    requires i <= |d| + 1 && Good(d, st, i) && k < |d|
    ensures Scan(d, i, st).buf[k] == st.buf[k] || Scan(d, i, st).buf[k] == '\0'
    decreases |d| + 1 - i
  {
    if i < |d| {
      var t := st.e[st.s].text.value;
      if d[i] == ' ' && st.s < HeadersTok {
        var j := SkipSpaces(d, i);
        var e1 := st.e[st.s := st.e[st.s].(len := i - t)];
        var e2 := e1[st.s + 1 := e1[st.s + 1].(text := Some(j))];
        ScanKeeps(d, j + 1, Split(st.s + 1, e2, st.buf[i := '\0']), k);
      } else if d[i] != '\n' {
        ScanKeeps(d, i + 1, st, k);
      }
    }
  }

  /** A well-formed `GET` line is served as the normalised path. */
  lemma GetRoundTrip(sp1: seq<char>, p: seq<char>, sp2: seq<char>, v: seq<char>, rest: seq<char>, d: seq<char>)
    requires Word(p) && Word(v) && Spaces(sp1) && Spaces(sp2)
    requires d == "GET" + sp1 + p + sp2 + v + "\n" + rest
    ensures RequestOf(d) == Get(NormalForm(p))
  {
    var a1 := 3 + |sp1|;
    var a2 := a1 + |p| + |sp2|;
    GetSplit(sp1, p, sp2, v, rest, d, a1, a2 + |v|);
    GetServed(d, a1, p);
  }

  /** A split that is a `GET` whose path entry covers `p` serves `p`,
      normalised. */
  lemma GetServed(d: seq<char>, a1: nat, p: seq<char>)
    requires var r := SplitOf(d);
      r.e[PathTok] == Token(Some(a1), |p|) && IsGet(r) && r.buf[a1 .. a1 + |p|] == p
    ensures RequestOf(d) == Get(NormalForm(p))
  {
  }

  /** The split of a well-formed `GET` line is a `GET` whose path entry
      covers the path, left as it was. */
  lemma GetSplit(sp1: seq<char>, p: seq<char>, sp2: seq<char>, v: seq<char>, rest: seq<char>, d: seq<char>,
                 a1: nat, nl: nat)
    requires Word(p) && Word(v) && Spaces(sp1) && Spaces(sp2)
    requires d == "GET" + sp1 + p + sp2 + v + "\n" + rest
    requires a1 == 3 + |sp1| && nl == a1 + |p| + |sp2| + |v|
    ensures var r := SplitOf(d);
      r.e[PathTok] == Token(Some(a1), |p|) && IsGet(r) && r.buf[a1 .. a1 + |p|] == p
  {
    SplitRoundTrip("GET", sp1, p, sp2, v, rest, d, a1, a1 + |p| + |sp2|, nl);
    var b := d[3 := '\0'][a1 + |p| := '\0'][nl := '\0'];
    assert b[..3] == "GET" by {
      forall k | 0 <= k < 3
        ensures b[k] == "GET"[k]
      {
        assert d[k] == "GET"[k];
      }
    }
    assert b[a1 .. a1 + |p|] == p by {
      forall k | a1 <= k < a1 + |p|
        ensures b[k] == p[k - a1]
      {
        assert d[k] == p[k - a1];
      }
    }
  }

  /** Any other method of a well-formed line is a bad request. */
  lemma OtherMethod(m: seq<char>, sp1: seq<char>, p: seq<char>, sp2: seq<char>, v: seq<char>, rest: seq<char>, d: seq<char>)
    requires Word(m) && m != "GET" && Word(p) && Word(v) && Spaces(sp1) && Spaces(sp2)
    requires d == m + sp1 + p + sp2 + v + "\n" + rest
    ensures RequestOf(d) == BadRequest
  {
    var a1 := |m| + |sp1|;
    var a2 := a1 + |p| + |sp2|;
    SplitRoundTrip(m, sp1, p, sp2, v, rest, d, a1, a2, a2 + |v|);
    if |m| == 3 {
      assert SplitOf(d).buf[..3] == m;
    }
  }

  /** The lowercasing loop of `webserver_recv`, in place on the bytes
      `[t, t + n)` of the receive buffer. */
  method LowerInPlace(data: array<char>, t: nat, n: nat)
    requires t + n <= data.Length
    modifies data
    ensures data[..] == old(data[..t]) + NormalBody(old(data[t .. t + n])) + old(data[t + n..])
  {
    for k := 0 to n
      invariant forall q :: 0 <= q < data.Length && !(t <= q < t + k) ==> data[q] == old(data[q])
      invariant forall q :: t <= q < t + k ==> data[q] == LowerChar(old(data[q]))
    {
      var c := data[t + k];
      if 'A' <= c <= 'Z' {
        data[t + k] := (c as int + 0x20) as char;
      }
    }
  }

  /** The lowercased bytes. */
  function NormalBody(q: seq<char>): (r: seq<char>)
    ensures |r| == |q| && NoUpper(r)
  {
    seq(|q|, k requires 0 <= k < |q| => LowerChar(q[k]))
  }

  /** The normalisation of `webserver_recv` on the path entry `[t, t + n)`:
      the name it hands to `find_file`, and the buffer with the name
      lowercased in place. */
  method NormalPath(data: array<char>, t: nat, n: nat) returns (path: seq<char>)
    requires n >= 1 && t + n <= data.Length
    modifies data
    ensures path == NormalForm(old(data[t .. t + n]))
    ensures old(data[t .. t + n]) == "/" ==> data[..] == old(data[..])
    ensures old(data[t .. t + n]) != "/" ==>
      var a := if old(data[t]) == '/' then t + 1 else t;
      data[..] == old(data[..a]) + path + old(data[t + n..])
  {
    ghost var p := data[t .. t + n];
    if n == 1 && data[t] == '/' {
      assert p == "/";
      return "index.html";
    }
    assert p != "/";
    var a, m := t, n;
    if data[t] == '/' {
      a, m := t + 1, n - 1;
    }
    assert old(data[a .. a + m]) == if p[0] == '/' then p[1..] else p;
    LowerInPlace(data, a, m);
    path := data[a .. a + m];
    assert path == NormalForm(p);
  }

  /** The request-processing part of `webserver_recv`: split the received
      bytes, check for `GET` with a path and normalise the path. */
  method Recv(data: array<char>) returns (q: Request)
    modifies data
    ensures q == RequestOf(old(data[..]))
  {
    ghost var d := data[..];
    var s, e := SplitRequest(data);
    ghost var r := SplitOf(d);
    if e[MethodTok].len == 3 && data[..3] == "GET" && e[PathTok].text.Some? && e[PathTok].len != 0 {
      assert e[MethodTok] == Token(Some(0), 3);
      var t, n := e[PathTok].text.value, e[PathTok].len;
      var path := NormalPath(data, t, n);
      q := Get(path);
    } else {
      q := BadRequest;
    }
  }

  // ---------------------------------------------------------------------
  // Replies.

  /** What the server answers: an error page, or a file of `size` bytes
      sent with its MIME type. */
  datatype Reply = Error(code: int) | File(mimeType: seq<char>, size: nat)

  /** The decision at the end of `webserver_recv`, given what `find_file`
      found (the size of the file) and whether `load_file` succeeded. A bad
      request is 400; a missing file, an unknown type or a failed load is
      404. */
  function Respond(q: Request, found: Option<nat>, loaded: bool): (r: Reply)
    ensures r.File? <==> q.Get? && found.Some? && GetMimeType(q.path).Some? && loaded
    ensures r.File? ==> r.mimeType == GetMimeType(q.path).value && r.size == found.value
    ensures r.Error? ==> (r.code == 400 <==> q.BadRequest?) && (r.code == 400 || r.code == 404)
  {
    if q.BadRequest? then Error(400)
    else if found.None? then Error(404)
    else
      var mime := GetMimeType(q.path);
      if mime.None? || !loaded then Error(404) else File(mime.value, found.value)
  }

  /** The status text of `webserver_send_error`. */
  function CodeStr(code: int): seq<char>
  {
    if code == 400 then "400 Bad Request"
    else if code == 404 then "404 Not Found"
    else "500 Internal Server Error"
  }

  const HeadStr: seq<char> := "<html><body><h1>"
  const TailStr: seq<char> := "</h1></body></html>"

  /** `sizeof(head_str) - 1 + strlen(code_str) + sizeof(tail_str) - 1`. */
  function ErrorContentLength(code: int): nat
  {
    (17 - 1) + |CodeStr(code)| + (20 - 1)
  }

  /** The whole error reply `webserver_send_error` formats. */
  function ErrorReply(code: int): seq<char>
  {
    "HTTP/1.1 " + CodeStr(code) + "\nContent-Type: text/html\nContent-Length: " + Decimal(ErrorContentLength(code)) + "\n\n"
      + HeadStr + CodeStr(code) + TailStr
  }

  /** The error reply declares exactly the length of the body that follows
      the blank line. */
  lemma ErrorContentLengthMatches(code: int)
    ensures var body := HeadStr + CodeStr(code) + TailStr;
      && ErrorReply(code) == "HTTP/1.1 " + CodeStr(code) + "\nContent-Type: text/html\nContent-Length: " + Decimal(ErrorContentLength(code)) + "\n\n" + body
      && DecimalValue(Decimal(ErrorContentLength(code))) == |body|
  {
    DecimalRoundTrip(ErrorContentLength(code));
  }

  /** With its NUL the reply fits `char buf[128]` exactly for the two codes
      the server sends, 400 and 404; the 500 default would not fit. */
  lemma ErrorReplyFits(code: int)
    ensures |ErrorReply(code)| + 1 <= 128 <==> code == 400 || code == 404
  {
    assert Decimal(50) == "50" && Decimal(48) == "48" && Decimal(60) == "60";
  }

  /** The header `webserver_send_response` formats for a file. */
  function ResponseHead(mimeType: seq<char>, size: nat): (h: seq<char>)
    ensures |h| == 49 + |mimeType| + |Decimal(size)|
  {
    "HTTP/1.1 200 OK\nContent-Type: " + mimeType + "\nContent-Length: " + Decimal(size) + "\n\n"
  }

  /** The header and its NUL fit in the room in front of the file. */
  predicate HeadFits(mimeType: seq<char>, headRoom: int, size: nat)
  {
    |ResponseHead(mimeType, size)| + 1 <= headRoom
  }

  /** `os_sprintf(buf, ...)`: the text and its NUL at the start of `buf`. */
  method Format(buf: array<char>, text: seq<char>)
    requires |text| < buf.Length
    modifies buf
    ensures buf[..|text|] == text && buf[|text|] == '\0'
    ensures buf[|text| + 1..] == old(buf[|text| + 1..])
  {
    for k := 0 to |text|
      invariant buf[..k] == text[..k]
      invariant buf[k..] == old(buf[k..])
    {
      buf[k] := text[k];
      assert buf[..k + 1] == buf[..k] + [text[k]];
      assert buf[k + 1..] == old(buf[k..])[1..];
    }
    buf[|text|] := '\0';
    assert buf[|text| + 1..] == old(buf[|text|..])[1..];
  }

  /** `os_memmove(buf + to, buf + from, n)` towards the end of the buffer,
      copying from the back so that overlapping ranges move intact. */
  method MoveUp(buf: array<char>, from: nat, to: nat, n: nat)
    requires from <= to && to + n <= buf.Length
    modifies buf
    ensures buf[to .. to + n] == old(buf[from .. from + n])
    ensures buf[..to] == old(buf[..to]) && buf[to + n..] == old(buf[to + n..])
  {
    var k := n;
    while k > 0
      invariant 0 <= k <= n
      invariant buf[to + k .. to + n] == old(buf[from + k .. from + n])
      invariant buf[..to + k] == old(buf[..to + k]) && buf[to + n..] == old(buf[to + n..])
    {
      k := k - 1;
      ghost var before := buf[..];
      assert before[from + k] == old(buf[from + k]) by {
        assert before[..to + k + 1][from + k] == old(buf[..to + k + 1])[from + k];
      }
      buf[to + k] := buf[from + k];
      assert buf[..to + k] == before[..to + k];
      assert buf[to + n..] == before[to + n..];
      assert buf[to + k .. to + n] == [buf[to + k]] + buf[to + k + 1 .. to + n];
      assert old(buf[from + k .. from + n]) == [old(buf[from + k])] + old(buf[from + k + 1 .. from + n]);
    }
  }

  /** Two sequences that agree from `from` on agree on every slice there. */
  lemma SameFrom(a: seq<char>, b: seq<char>, from: nat, lo: nat, hi: nat)
    requires |a| == |b| && from <= lo <= hi <= |a| && a[from..] == b[from..]
    ensures a[lo .. hi] == b[lo .. hi]
  {
    forall k | 0 <= k < hi - lo
      ensures a[lo .. hi][k] == b[lo .. hi][k]
    {
      assert a[from..][lo - from + k] == b[from..][lo - from + k];
    }
  }

  /** `webserver_send_response` with room to spare: the header is formatted
      at the start of `buf`, moved to end just before the file bytes at
      `headRoom`, and the header followed by the file is sent. */
  method SendResponse(buf: array<char>, mimeType: seq<char>, headRoom: nat, size: nat) returns (sent: seq<char>)
    requires HeadFits(mimeType, headRoom, size) && headRoom + size <= buf.Length
    modifies buf
    ensures sent == ResponseHead(mimeType, size) + old(buf[headRoom .. headRoom + size])
  {
    sent := SendBefore(buf, ResponseHead(mimeType, size), headRoom, size);
  }

  /** The moves behind `SendResponse` for any header `head` whose text and
      NUL fit in the room in front of the file. */
  method SendBefore(buf: array<char>, head: seq<char>, headRoom: nat, size: nat) returns (sent: seq<char>)
    requires |head| + 1 <= headRoom && headRoom + size <= buf.Length
    modifies buf
    ensures sent == head + old(buf[headRoom .. headRoom + size])
  {
    ghost var b0 := buf[..];
    var h := |head|;
    Format(buf, head);
    ghost var b1 := buf[..];
    ghost var file := b1[headRoom .. headRoom + size];
    assert file == b0[headRoom .. headRoom + size] by {
      SameFrom(b1, b0, h + 1, headRoom, headRoom + size);
    }
    var out := headRoom - h;
    MoveUp(buf, 0, out, h);
    ghost var b2 := buf[..];
    assert b2[out .. headRoom] == head by {
      assert b1[0 .. h] == b1[..h];
    }
    assert b2[headRoom .. headRoom + size] == file by {
      SameFrom(b2, b1, headRoom, headRoom, headRoom + size);
    }
    sent := buf[out .. headRoom + size];
    assert sent == b2[out .. headRoom] + b2[headRoom .. headRoom + size];
  }

  /** The head room `webserver_recv` reserves in front of a loaded file. */
  const ServeHeadRoom: int := 64

  /** `HTTP_HEAD_SIZE`, the head room the header file defines. */
  const HttpHeadSize: int := 72

  /** With 64 bytes of head room a `text/javascript` header never fits, and
      a `text/html` header fits only below 100000 bytes of file. */
  lemma ServeHeadRoomTooSmall(size: nat)
    ensures !HeadFits("text/javascript", ServeHeadRoom, size)
    ensures HeadFits("text/html", ServeHeadRoom, size) <==> size < 100000
  {
    DecimalLength(size, 5);
    assert Pow10(5) == 100000;
  }

  /** With `HTTP_HEAD_SIZE` of head room every header of the MIME table
      fits for any file below 10^7 bytes, more than the whole flash. */
  lemma HttpHeadSizeFits(mimeType: seq<char>, size: nat)
    requires exists j :: 0 <= j < |MimeTypes| && MimeTypes[j].mimeType == mimeType
    requires size < 10_000_000
    ensures HeadFits(mimeType, HttpHeadSize, size)
  {
    DecimalLength(size, 7);
    assert Pow10(7) == 10_000_000;
    var j :| 0 <= j < |MimeTypes| && MimeTypes[j].mimeType == mimeType;
    assert |mimeType| <= 15;
  }

  /** Serving a file whose bytes were loaded after `HTTP_HEAD_SIZE` bytes
      of room: the header and the file go out intact. */
  method ServeFile(buf: array<char>, path: seq<char>, size: nat) returns (sent: Option<seq<char>>)
    requires size < 10_000_000 && HttpHeadSize + size <= buf.Length
    modifies buf
    ensures GetMimeType(path).None? ==> sent.None?
    ensures GetMimeType(path).Some? ==>
      sent == Some(ResponseHead(GetMimeType(path).value, size) + old(buf[HttpHeadSize .. HttpHeadSize + size]))
  {
    var mime := GetMimeType(path);
    if mime.None? {
      return None;
    }
    assert exists j :: 0 <= j < |MimeTypes| && MimeTypes[j].mimeType == mime.value by {
      var j :| 0 <= j < |MimeTypes| && HasExt(path, MimeTypes[j].ext) && mime.value == MimeTypes[j].mimeType;
    }
    HttpHeadSizeFits(mime.value, size);
    var s := SendResponse(buf, mime.value, HttpHeadSize, size);
    sent := Some(s);
  }
}
