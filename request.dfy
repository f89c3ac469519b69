/** Decoding of the request line in `handleClient` (src/main.cpp): the
    `GET /screen?` route, the `mode=` and `temp=` fields, the update of the
    two settings and the status response. */
module Request {
  import opened Machine
  import opened Optional
  import opened ArduinoString
  import opened Format

  const RoutePrefix: string := "GET /screen?"
  const ModeKey: string := "mode="
  const TempKey: string := "temp="

  /** Both keys are skipped with the literal offset 5 (`mIdx + 5`, `tIdx + 5`). */
  const KeyLength: nat := 5

  /** The status line and headers, each sent by `println` (so ended by CR LF),
      then the empty line. */
  const ResponseHead: string := "HTTP/1.1 200 OK\r\nContent-Type: text/plain\r\nConnection: close\r\n\r\n"

  /** The two globals: `screenMode` (0 is the clock, anything else the
      temperature screen) and `tempValue`. */
  datatype Settings = Settings(mode: Int32, value: Int32)

  /** A key of the length the decoder skips, containing neither delimiter. */
  predicate IsKey(key: string) {
    |key| == KeyLength && '&' !in key && ' ' !in key
  }

  /** Both keys of the query are keys in that sense. */
  lemma KeysAreKeys()
    ensures IsKey(ModeKey) && IsKey(TempKey)
  {
  }

  /** `end` in `handleClient`: the first `&` at or after the key, or failing
      that the first space, or -1 when there is neither. */
  function FieldEnd(line: string, keyAt: nat): (e: int)
    ensures -1 <= e < |line|
    ensures e >= 0 ==> keyAt <= e && (line[e] == '&' || line[e] == ' ')
  {
    var amp := IndexOfChar(line, '&', keyAt);
    if amp < 0 then IndexOfChar(line, ' ', keyAt) else amp
  }

  /** `req.substring(keyAt + 5, end)`: the raw text of the field whose key
      starts at `keyAt`. */
  function FieldText(line: string, keyAt: nat): string {
    Substring(line, keyAt + KeyLength, ToUnsigned(FieldEnd(line, keyAt)))
  }

  /** The raw text of a field starts just after its key and runs up to the
      first `&` after it; when there is no `&`, up to the first space; when
      there is neither, to the end of the line. */
  lemma FieldTextDelimited(line: string, keyAt: nat)
    requires keyAt + KeyLength <= |line| <= Int32Max
    requires IsKey(line[keyAt..keyAt + KeyLength])
    ensures var start := keyAt + KeyLength; var t := FieldText(line, keyAt);
      && start + |t| <= |line|
      && t == line[start..start + |t|]
      && '&' !in t
      && ('&' !in line[start..] ==> ' ' !in t)
      && (|| start + |t| == |line|
          || line[start + |t|] == '&'
          || ('&' !in line[start..] && line[start + |t|] == ' '))
  {
    if IndexOfChar(line, '&', keyAt) >= 0 {
      FieldStopsAtAmp(line, keyAt);
    } else {
      FieldWithoutAmp(line, keyAt);
    }
  }

  /** When a `&` follows the key, the field text runs up to the first one. */
  lemma FieldStopsAtAmp(line: string, keyAt: nat)
    requires keyAt + KeyLength <= |line| <= Int32Max
    requires IsKey(line[keyAt..keyAt + KeyLength])
    requires IndexOfChar(line, '&', keyAt) >= 0
    ensures var start := keyAt + KeyLength; var t := FieldText(line, keyAt);
      && start + |t| < |line|
      && t == line[start..start + |t|]
      && '&' !in t && line[start + |t|] == '&'
      && '&' in line[start..]
  {
    var start := keyAt + KeyLength;
    var key := line[keyAt..start];
    assert forall k :: keyAt <= k < start ==> line[k] == key[k - keyAt];
    var amp := IndexOfChar(line, '&', keyAt);
    assert line[amp] == '&' && amp >= start;
    assert FieldText(line, keyAt) == line[start..amp];
    assert line[start..][amp - start] == '&';
  }

  /** When no `&` follows the key, the field text runs up to the first
      space, or to the end of the line. */
  lemma FieldWithoutAmp(line: string, keyAt: nat)
    requires keyAt + KeyLength <= |line| <= Int32Max
    requires IsKey(line[keyAt..keyAt + KeyLength])
    requires IndexOfChar(line, '&', keyAt) < 0
    ensures var start := keyAt + KeyLength; var t := FieldText(line, keyAt);
      && start + |t| <= |line|
      && t == line[start..start + |t|]
      && '&' !in line[start..] && ' ' !in t
      && (start + |t| == |line| || line[start + |t|] == ' ')
  {
    var start := keyAt + KeyLength;
    var key := line[keyAt..start];
    assert forall k :: keyAt <= k < start ==> line[k] == key[k - keyAt];
    assert forall k :: start <= k < |line| ==> line[k] != '&';
    var sp := IndexOfChar(line, ' ', keyAt);
    if sp >= 0 {
      assert line[sp] == ' ' && sp >= start;
      assert FieldText(line, keyAt) == line[start..sp];
    } else {
      assert FieldText(line, keyAt) == line[start..];
    }
  }

  /** The raw text of a field is a stretch of the line starting just after
      the key and ending at the end of the line, at a `&` or at a space. */
  lemma FieldTextBounds(line: string, keyAt: nat)
    requires keyAt + KeyLength <= |line| <= Int32Max
    requires IsKey(line[keyAt..keyAt + KeyLength])
    ensures var start := keyAt + KeyLength; var t := FieldText(line, keyAt);
      && start + |t| <= |line|
      && t == line[start..start + |t|]
      && (|| start + |t| == |line|
          || (start + |t| < |line| && (line[start + |t|] == '&' || line[start + |t|] == ' ')))
  {
    var start := keyAt + KeyLength;
    var e := FieldEnd(line, keyAt);
    if e >= 0 {
      assert ToUnsigned(e) == e;
      SliceAt(line, keyAt, line[keyAt..start], e - keyAt);
    } else {
      assert ToUnsigned(e) == Uint32Modulus - 1;
    }
  }

  /** A character inside a slice that holds `d` is a character of `d`. */
  lemma SliceAt(line: string, start: nat, d: string, i: nat)
    requires start + |d| <= |line| && line[start..start + |d|] == d
    ensures i < |d| ==> line[start + i] == d[i] && d[i] in d
  {
    if i < |d| {
      assert line[start..start + |d|][i] == line[start + i];
    }
  }

  /** One field of the query: `None` when its key does not occur in the line,
      otherwise `toInt` of the raw text after the first occurrence. */
  function ParseField(line: string, key: string): (r: Option<Int32>)
    requires IsKey(key)
    ensures r.None? <==> !Occurs(line, key)
  {
    var at := IndexOf(line, key, 0);
    if at < 0 then None else Some(ToInt(FieldText(line, at)))
  }

  /** `ParseField` in the steps `handleClient` takes: find the key, find
      the end of its field, convert the text between. */
  lemma ParseFieldSteps(line: string, key: string, at: int, end: int)
    requires IsKey(key)
    requires at == IndexOf(line, key, 0)
    requires at >= 0 ==> end == FieldEnd(line, at)
    ensures at < 0 ==> ParseField(line, key) == None
    ensures at >= 0 ==> ParseField(line, key) == Some(ToInt(Substring(line, at + KeyLength, ToUnsigned(end))))
  {
    if at >= 0 {
      var t := Substring(line, at + KeyLength, ToUnsigned(end));
      assert t == FieldText(line, at);
      assert ParseField(line, key) == Some(ToInt(FieldText(line, at)));
    }
  }

  /** The block `handleClient` runs for each key: find the key, then the
      end of its field, and convert the text between; `found` is false when
      the key does not occur. */
  method ReadField(req: string, key: string) returns (found: bool, value: Int32)
    requires IsKey(key)
    ensures found <==> Occurs(req, key)
    ensures ParseField(req, key) == if found then Some(value) else None
  {
    var idx := IndexOf(req, key, 0);
    found := idx >= 0;
    value := 0;
    if found {
      var end := IndexOfChar(req, '&', idx);
      if end < 0 {
        end := IndexOfChar(req, ' ', idx);
      }
      ParseFieldSteps(req, key, idx, end);
      value := ToInt(Substring(req, idx + KeyLength, ToUnsigned(end)));
    } else {
      ParseFieldSteps(req, key, idx, 0);
    }
  }

  /** The state update of `handleClient` for one request line: a line that
      does not start with the route changes nothing; otherwise each field that
      is present overwrites its own setting and a missing one keeps it. */
  function Apply(st: Settings, line: string): (r: Settings)
    ensures !StartsWith(line, RoutePrefix) ==> r == st
    ensures !Occurs(line, ModeKey) ==> r.mode == st.mode
    ensures !Occurs(line, TempKey) ==> r.value == st.value
  {
    if StartsWith(line, RoutePrefix) then
      Settings(ParseField(line, ModeKey).GetOr(st.mode), ParseField(line, TempKey).GetOr(st.value))
    else st
  }

  /** The body of the status response: `Mode=<m>, Temp=<v>`. */
  function ResponseBody(st: Settings): string {
    "Mode=" + Decimal(st.mode) + ", Temp=" + Decimal(st.value)
  }

  /** Everything written to the client. */
  function Response(st: Settings): string {
    ResponseHead + ResponseBody(st)
  }

  /** The response body reports the settings it was built from: the number
      after `Mode=` reads back (by `toInt`) as the mode and the number after
      `, Temp=` as the value. */
  lemma ResponseBodyReadsBack(st: Settings)
    ensures var body := ResponseBody(st); var at := 5 + |Decimal(st.mode)| + 7;
      && StartsWith(body, "Mode=")
      && ToInt(body[5..]) == st.mode
      && at <= |body| && body[at - 7..at] == ", Temp="
      && ToInt(body[at..]) == st.value
  {
    Pieces("Mode=", Decimal(st.mode), ", Temp=", Decimal(st.value));
    BodyModeReadsBack(st);
    BodyTempReadsBack(st);
  }

  /** The number after `Mode=` reads back as the mode. */
  lemma BodyModeReadsBack(st: Settings)
    ensures ToInt(ResponseBody(st)[5..]) == st.mode
  {
    var dm, dv := Decimal(st.mode), Decimal(st.value);
    Regroup2("Mode=" + dm, ", Temp=", dv);
    Regroup2("Mode=", dm, ", Temp=" + dv);
    assert ResponseBody(st)[5..] == dm + (", Temp=" + dv);
    ToIntDecimal(st.mode, ", Temp=" + dv);
  }

  /** The number after `, Temp=` reads back as the value. */
  lemma BodyTempReadsBack(st: Settings)
    ensures ToInt(ResponseBody(st)[5 + |Decimal(st.mode)| + 7..]) == st.value
  {
    var dm, dv := Decimal(st.mode), Decimal(st.value);
    Pieces("Mode=", dm, ", Temp=", dv);
    assert ResponseBody(st)[5 + |dm| + 7..] == dv + [];
    ToIntDecimal(st.value, []);
  }

  /** Handling the same line a second time changes nothing more. */
  lemma ApplyIdempotent(st: Settings, line: string)
    ensures Apply(Apply(st, line), line) == Apply(st, line)
  {
  }

  /** A match starts with the pattern's first character. */
  lemma FirstCharOfMatch(s: string, pat: string, k: nat)
    requires |pat| > 0
    ensures MatchAt(s, pat, k) ==> s[k] == pat[0]
  {
    if MatchAt(s, pat, k) {
      assert s[k..k + |pat|][0] == s[k];
    }
  }

  /** A match continues with the pattern's second character. */
  lemma SecondCharOfMatch(s: string, pat: string, k: nat)
    requires |pat| > 1
    ensures MatchAt(s, pat, k) ==> s[k + 1] == pat[1]
  {
    if MatchAt(s, pat, k) {
      assert s[k..k + |pat|][1] == s[k + 1];
    }
  }

  /** When the key's first letter does not occur in a stretch of the line, the
      key does not start anywhere in that stretch. */
  lemma NoMatchIn(line: string, lo: nat, hi: nat, key: string)
    requires |key| > 0
    requires forall k :: lo <= k < hi && k < |line| ==> line[k] != key[0]
    ensures forall k :: lo <= k < hi ==> !MatchAt(line, key, k)
  {
    forall k | lo <= k < hi
      ensures !MatchAt(line, key, k)
    {
      FirstCharOfMatch(line, key, k);
    }
  }

  /** The raw text of a field holding a run `d` without delimiters, followed
      by `post`, is `d` followed by a prefix of `post`. */
  lemma FieldTextAfterRun(line: string, pre: string, key: string, d: string, post: string)
    requires IsKey(key)
    requires line == pre + key + d + post
    requires |line| <= Int32Max
    requires '&' !in d && ' ' !in d
    ensures var t := FieldText(line, |pre|);
      |d| <= |t| <= |d| + |post| && t == d + post[..|t| - |d|]
  {
    var start := |pre| + KeyLength;
    Pieces(pre, key, d, post);
    FieldTextCoversRun(line, |pre|, d);
    RunThenRest(line, start, d, post, |FieldText(line, |pre|)|);
  }

  /** The field text after a key covers a run `d` the value starts with,
      when `d` holds neither `&` nor a space. */
  lemma FieldTextCoversRun(line: string, at: nat, d: string)
    requires at + KeyLength + |d| <= |line| <= Int32Max
    requires IsKey(line[at..at + KeyLength])
    requires line[at + KeyLength..at + KeyLength + |d|] == d
    requires '&' !in d && ' ' !in d
    ensures var t := FieldText(line, at);
      && |d| <= |t| && at + KeyLength + |t| <= |line|
      && t == line[at + KeyLength..at + KeyLength + |t|]
  {
    FieldTextBounds(line, at);
    RunLength(line, at + KeyLength, d, |FieldText(line, at)|);
  }

  /** A stretch that starts with the run `d`, followed in the line by
      `post`, is `d` and then a prefix of `post`. */
  lemma RunThenRest(line: string, start: nat, d: string, post: string, len: nat)
    requires start + |d| <= start + len <= |line|
    requires line[start..start + |d|] == d && line[start + |d|..] == post
    ensures line[start..start + len] == d + post[..len - |d|]
  {
    SliceJoin(line, start, start + |d|, start + len);
    assert line[start + |d|..start + len] == line[start + |d|..][..len - |d|];
  }

  /** A stretch that ends at the end of the line, at a `&` or at a space
      covers a run `d` it starts with, when `d` holds neither. */
  lemma RunLength(line: string, start: nat, d: string, len: nat)
    requires start + |d| <= |line| && line[start..start + |d|] == d
    requires '&' !in d && ' ' !in d
    requires start + len == |line| || (start + len < |line| && (line[start + len] == '&' || line[start + len] == ' '))
    ensures len >= |d|
  {
    SliceAt(line, start, d, len);
  }

  /** A slice is the concatenation of its two halves. */
  lemma SliceJoin(s: string, a: nat, b: nat, c: nat)
    requires a <= b <= c <= |s|
    ensures s[a..c] == s[a..b] + s[b..c]
  {
  }

  /** The four parts of a concatenation, sliced back out of it. */
  lemma Pieces(a: string, b: string, c: string, d: string)
    ensures var s := a + b + c + d;
      && s[..|a|] == a
      && s[|a|..|a| + |b|] == b
      && s[|a| + |b|..|a| + |b| + |c|] == c
      && s[|a| + |b| + |c|..] == d
  {
    var s := a + b + c + d;
    assert s == ((a + b) + c) + d;
    assert s[..|a| + |b| + |c|] == (a + b) + c;
    assert s[..|a| + |b|] == a + b;
  }

  /** Regrouping the tail of a concatenation. */
  lemma Regroup2(x: string, a: string, b: string)
    ensures x + a + b == x + (a + b)
  {
  }

  /** Regrouping the tail of a concatenation. */
  lemma Regroup4(x: string, a: string, b: string, c: string, d: string)
    ensures x + a + b + c + d == x + (a + b + c + d)
  {
  }

  /** A key that occurs at `at` and nowhere before is found there. */
  lemma KeyFoundAt(line: string, key: string, at: nat)
    requires |key| > 0 && MatchAt(line, key, at)
    requires forall k :: 0 <= k < at ==> !MatchAt(line, key, k)
    ensures IndexOf(line, key, 0) == at
  {
  }

  /** A field whose key first occurs right after `pre` and is followed by a
      printed number and then a non-digit decodes to that number, whatever
      follows it. */
  lemma ParseFieldAt(line: string, pre: string, key: string, n: Int32, post: string)
    requires IsKey(key)
    requires line == pre + key + Decimal(n) + post
    requires |line| <= Int32Max
    requires forall k :: 0 <= k < |pre| ==> !MatchAt(line, key, k)
    requires post == [] || !IsDigit(post[0])
    ensures ParseField(line, key) == Some(n)
  {
    Pieces(pre, key, Decimal(n), post);
    KeyFoundAt(line, key, |pre|);
    FieldValueAt(line, pre, key, n, post);
  }

  /** The field after `pre` and a key, holding a printed number followed by
      a non-digit, converts to that number. */
  lemma FieldValueAt(line: string, pre: string, key: string, n: Int32, post: string)
    requires IsKey(key)
    requires line == pre + key + Decimal(n) + post
    requires |line| <= Int32Max
    requires post == [] || !IsDigit(post[0])
    ensures ToInt(FieldText(line, |pre|)) == n
  {
    DecimalHasNoKeyLetter(n);
    FieldTextAfterRun(line, pre, key, Decimal(n), post);
    ToIntOfRunPrefix(FieldText(line, |pre|), n, post);
  }

  /** A text made of a printed number and a prefix of a text that does not
      start with a digit reads back as that number. */
  lemma ToIntOfRunPrefix(t: string, n: Int32, post: string)
    requires post == [] || !IsDigit(post[0])
    requires |Decimal(n)| <= |t| <= |Decimal(n)| + |post|
    requires t == Decimal(n) + post[..|t| - |Decimal(n)|]
    ensures ToInt(t) == n
  {
    var d := Decimal(n);
    var rest := t[|d|..];
    assert t == d + rest;
    assert rest == [] || rest[0] == post[0];
    ToIntDecimal(n, rest);
  }

  /** A key whose first letter is not in the route does not occur inside it. */
  lemma NoKeyInRoute(line: string, key: string, rest: string)
    requires |key| > 0 && key[0] !in RoutePrefix
    requires line == RoutePrefix + key + rest
    ensures forall k :: 0 <= k < |RoutePrefix| ==> !MatchAt(line, key, k)
  {
    forall k | 0 <= k < |RoutePrefix|
      ensures line[k] != key[0]
    {
      assert line[k] == RoutePrefix[k];
      assert RoutePrefix[k] in RoutePrefix;
    }
    NoMatchIn(line, 0, |RoutePrefix|, key);
  }

  /** A key whose first letter is not in the route occurs first right
      after it. */
  lemma KeyRightAfterRoute(line: string, key: string, rest: string)
    requires |key| > 0 && key[0] !in RoutePrefix
    requires line == RoutePrefix + key + rest
    ensures IndexOf(line, key, 0) == |RoutePrefix|
  {
    NoKeyInRoute(line, key, rest);
    assert line[|RoutePrefix|..|RoutePrefix| + |key|] == key;
    KeyFoundAt(line, key, |RoutePrefix|);
  }

  /** A field right after the route, holding a printed number followed by
      a non-digit, decodes to that number. */
  lemma FirstFieldAt(line: string, key: string, n: Int32, tail: string)
    requires IsKey(key) && key[0] !in RoutePrefix
    requires line == RoutePrefix + key + Decimal(n) + tail
    requires |line| <= Int32Max
    requires tail == [] || !IsDigit(tail[0])
    ensures ParseField(line, key) == Some(n)
  {
    NoKeyInRoute(line, key, Decimal(n) + tail);
    ParseFieldAt(line, RoutePrefix, key, n, tail);
  }

  /** The request line a client sends to set both settings. */
  function QueryLine(m: int, v: int): string {
    RoutePrefix + ModeKey + Decimal(m) + "&" + TempKey + Decimal(v) + " HTTP/1.1"
  }

  /** The same request with the two fields in the other order. */
  function SwappedQueryLine(m: int, v: int): string {
    RoutePrefix + TempKey + Decimal(v) + "&" + ModeKey + Decimal(m) + " HTTP/1.1"
  }

  /** A printed number holds neither key's first letter and neither delimiter. */
  lemma DecimalHasNoKeyLetter(n: int)
    ensures 'm' !in Decimal(n) && 't' !in Decimal(n) && '&' !in Decimal(n) && ' ' !in Decimal(n)
  {
  }

  /** `c` is absent from a concatenation when it is absent from both parts. */
  lemma NotInConcat(c: char, a: string, b: string)
    requires c !in a && c !in b
    ensures c !in a + b
  {
  }

  /** The letters the key search looks for, absent from the fixed parts of a
      query line after the route (`RouteLetters` covers the route). */
  lemma FixedPartLetters()
    ensures 't' !in ModeKey && 'm' !in "&" && 't' !in "&"
    ensures 'm' !in " HTTP/1.1" && 't' !in " HTTP/1.1"
    ensures 'm' !in "GET /screen?foo" && 't' !in "GET /screen?foo" && 't' !in "1"
  {
  }

  /** Neither key's first letter occurs in the route. */
  lemma RouteLetters()
    ensures 'm' !in RoutePrefix && 't' !in RoutePrefix
  {
  }

  /** In `GET /screen?temp=` followed by text without `m`, the only `m` is
      the one at position 14, inside `temp`. */
  lemma TempFieldLetters(rest: string)
    requires 'm' !in rest
    ensures var pre := RoutePrefix + TempKey + rest;
      forall k :: 0 <= k < |pre| && k != 14 ==> pre[k] != 'm'
  {
    var pre := RoutePrefix + TempKey + rest;
    forall k | 0 <= k < |pre| && k != 14
      ensures pre[k] != 'm'
    {
      if k < 12 {
        assert pre[k] == RoutePrefix[k];
        assert RoutePrefix[k] in RoutePrefix;
      } else if k < 17 {
        assert pre[k] == TempKey[k - 12];
        assert k == 12 || k == 13 || k == 15 || k == 16;
      } else {
        assert pre[k] == rest[k - 17];
        assert rest[k - 17] in rest;
      }
    }
  }

  /** Where a line starts with `GET /screen?temp=` and text without `m`,
      `mode=` does not start anywhere in that stretch. */
  lemma NoModeKeyAfterTempKey(line: string, pre: string, rest: string)
    requires 'm' !in rest
    requires pre == RoutePrefix + TempKey + rest
    requires |pre| <= |line| && line[..|pre|] == pre
    ensures forall k :: 0 <= k < |pre| ==> !MatchAt(line, ModeKey, k)
  {
    TempFieldLetters(rest);
    forall k | 0 <= k < |pre| && k != 14
      ensures line[k] != 'm'
    {
      assert line[k] == line[..|pre|][k];
    }
    NoMatchIn(line, 0, 14, ModeKey);
    NoMatchIn(line, 15, |pre|, ModeKey);
    assert !MatchAt(line, ModeKey, 14) by {
      assert line[15] == line[..|pre|][15] == 'p';
      SecondCharOfMatch(line, ModeKey, 14);
    }
  }

  /** A key whose first letter is nowhere in the line does not occur in it. */
  lemma AbsentKey(line: string, key: string)
    requires |key| > 0 && key[0] !in line
    ensures !Occurs(line, key)
  {
    forall k | 0 <= k < |line|
      ensures line[k] != key[0]
    {
      assert line[k] in line;
    }
    NoMatchIn(line, 0, |line| + 1, key);
  }

  /** In `mode=<m>&temp=<v>` the mode field decodes to `m`. */
  lemma QueryModeField(m: Int32, v: Int32)
    ensures ParseField(QueryLine(m, v), ModeKey) == Some(m)
  {
    var line := QueryLine(m, v);
    var tail := "&" + TempKey + Decimal(v) + " HTTP/1.1";
    Regroup4(RoutePrefix + ModeKey + Decimal(m), "&", TempKey, Decimal(v), " HTTP/1.1");
    assert |line| <= Int32Max by {
      DecimalInt32Length(m);
      DecimalInt32Length(v);
    }
    RouteLetters();
    FirstFieldAt(line, ModeKey, m, tail);
  }

  /** In `mode=<m>&temp=<v>` the temp field decodes to `v`. */
  lemma QueryTempField(m: Int32, v: Int32)
    ensures ParseField(QueryLine(m, v), TempKey) == Some(v)
  {
    var line := QueryLine(m, v);
    var dm, dv := Decimal(m), Decimal(v);
    DecimalInt32Length(m);
    DecimalInt32Length(v);
    var pre := RoutePrefix + ModeKey + dm + "&";
    assert 't' !in pre by {
      RouteLetters();
      FixedPartLetters();
      DecimalHasNoKeyLetter(m);
      NotInConcat('t', RoutePrefix, ModeKey);
      NotInConcat('t', RoutePrefix + ModeKey, dm);
      NotInConcat('t', RoutePrefix + ModeKey + dm, "&");
    }
    forall k | 0 <= k < |pre|
      ensures line[k] != 't'
    {
      assert line[k] == pre[k];
      assert pre[k] in pre;
    }
    NoMatchIn(line, 0, |pre|, TempKey);
    ParseFieldAt(line, pre, TempKey, v, " HTTP/1.1");
  }

  /** Round trip: `mode=<m>&temp=<v>` sets the settings to exactly `(m, v)`,
      whatever they were, and the response then reports `m` and `v`. */
  lemma RoundTrip(st: Settings, m: Int32, v: Int32)
    ensures Apply(st, QueryLine(m, v)) == Settings(m, v)
    ensures ResponseBody(Apply(st, QueryLine(m, v))) == "Mode=" + Decimal(m) + ", Temp=" + Decimal(v)
  {
    QueryLinesOnRoute(m, v);
    QueryModeField(m, v);
    QueryTempField(m, v);
  }

  /** Both query lines are on the route. */
  lemma QueryLinesOnRoute(m: int, v: int)
    ensures StartsWith(QueryLine(m, v), RoutePrefix)
    ensures StartsWith(SwappedQueryLine(m, v), RoutePrefix)
  {
    StartsWithChain(RoutePrefix, ModeKey, Decimal(m), "&", TempKey, Decimal(v), " HTTP/1.1");
    StartsWithChain(RoutePrefix, TempKey, Decimal(v), "&", ModeKey, Decimal(m), " HTTP/1.1");
  }

  /** A concatenation starts with its first part. */
  lemma StartsWithChain(p: string, a: string, b: string, c: string, d: string, e: string, f: string)
    ensures StartsWith(p + a + b + c + d + e + f, p)
  {
    assert StartsWith(p, p) by {
      assert p[..|p|] == p;
    }
    StartsWithExtend(p, a, p);
    StartsWithExtend(p + a, b, p);
    StartsWithExtend(p + a + b, c, p);
    StartsWithExtend(p + a + b + c, d, p);
    StartsWithExtend(p + a + b + c + d, e, p);
    StartsWithExtend(p + a + b + c + d + e, f, p);
  }

  /** Appending keeps a prefix. */
  lemma StartsWithExtend(s: string, x: string, p: string)
    requires StartsWith(s, p)
    ensures StartsWith(s + x, p)
  {
    assert (s + x)[..|p|] == s[..|p|];
  }

  /** In `temp=<v>&mode=<m>` the temp field decodes to `v`. */
  lemma SwappedTempField(m: Int32, v: Int32)
    ensures ParseField(SwappedQueryLine(m, v), TempKey) == Some(v)
  {
    var line := SwappedQueryLine(m, v);
    var tail := "&" + ModeKey + Decimal(m) + " HTTP/1.1";
    Regroup4(RoutePrefix + TempKey + Decimal(v), "&", ModeKey, Decimal(m), " HTTP/1.1");
    assert |line| <= Int32Max by {
      DecimalInt32Length(m);
      DecimalInt32Length(v);
    }
    RouteLetters();
    FirstFieldAt(line, TempKey, v, tail);
  }

  /** In `temp=<v>&mode=<m>` the mode field decodes to `m`: the `m` inside
      `temp` is followed by `p`, so `mode=` is first found after the `&`. */
  lemma SwappedModeField(m: Int32, v: Int32)
    ensures ParseField(SwappedQueryLine(m, v), ModeKey) == Some(m)
  {
    var line := SwappedQueryLine(m, v);
    var pre := RoutePrefix + TempKey + Decimal(v) + "&";
    assert |line| <= Int32Max by {
      DecimalInt32Length(m);
      DecimalInt32Length(v);
    }
    SwappedModeKeyLate(m, v);
    ParseFieldAt(line, pre, ModeKey, m, " HTTP/1.1");
  }

  /** In `temp=<v>&mode=<m>`, `mode=` does not start before the `&`. */
  lemma SwappedModeKeyLate(m: Int32, v: Int32)
    ensures var pre := RoutePrefix + TempKey + Decimal(v) + "&";
      forall k :: 0 <= k < |pre| ==> !MatchAt(SwappedQueryLine(m, v), ModeKey, k)
  {
    var line := SwappedQueryLine(m, v);
    var dv := Decimal(v);
    var pre := RoutePrefix + TempKey + dv + "&";
    DecimalHasNoKeyLetter(v);
    NotInConcat('m', dv, "&");
    Regroup2(RoutePrefix + TempKey, dv, "&");
    Pieces(pre, ModeKey, Decimal(m), " HTTP/1.1");
    NoModeKeyAfterTempKey(line, pre, dv + "&");
  }

  /** The fields may come in either order: `temp=<v>&mode=<m>` has the same
      effect. */
  lemma RoundTripSwapped(st: Settings, m: Int32, v: Int32)
    ensures Apply(st, SwappedQueryLine(m, v)) == Settings(m, v)
    ensures Apply(st, SwappedQueryLine(m, v)) == Apply(st, QueryLine(m, v))
  {
    QueryLinesOnRoute(m, v);
    SwappedTempField(m, v);
    SwappedModeField(m, v);
    RoundTrip(st, m, v);
  }

  /** A request that sets only the mode keeps the last temperature value. */
  lemma ModeOnlyKeepsValue(st: Settings, m: Int32)
    ensures Apply(st, RoutePrefix + ModeKey + Decimal(m) + " HTTP/1.1") == Settings(m, st.value)
  {
    var dm := Decimal(m);
    var line := RoutePrefix + ModeKey + dm + " HTTP/1.1";
    DecimalInt32Length(m);
    DecimalHasNoKeyLetter(m);
    assert StartsWith(line, RoutePrefix) by {
      assert line[..|RoutePrefix|] == RoutePrefix;
    }
    assert ParseField(line, ModeKey) == Some(m) by {
      RouteLetters();
      FirstFieldAt(line, ModeKey, m, " HTTP/1.1");
    }
    assert 't' !in line by {
      RouteLetters();
      FixedPartLetters();
      NotInConcat('t', RoutePrefix, ModeKey);
      NotInConcat('t', RoutePrefix + ModeKey, dm);
      NotInConcat('t', RoutePrefix + ModeKey + dm, " HTTP/1.1");
    }
    AbsentKey(line, TempKey);
  }

  /** The key search is not anchored at a parameter boundary: `foomode=1`
      sets the mode as well. */
  lemma UnanchoredKey(st: Settings)
    ensures Apply(st, "GET /screen?foomode=1") == Settings(1, st.value)
  {
    var pre := "GET /screen?foo";
    var line := pre + ModeKey + Decimal(1) + [];
    assert Decimal(1) == "1";
    assert line == "GET /screen?foomode=1";
    assert StartsWith(line, RoutePrefix) by {
      assert line[..|RoutePrefix|] == RoutePrefix;
    }
    forall k | 0 <= k < |pre|
      ensures line[k] != 'm'
    {
      RouteLetters();
      FixedPartLetters();
      assert line[k] == pre[k];
      assert pre[k] in pre;
    }
    NoMatchIn(line, 0, |pre|, ModeKey);
    ParseFieldAt(line, pre, ModeKey, 1, []);
    assert 't' !in line by {
      RouteLetters();
      FixedPartLetters();
      NotInConcat('t', pre, ModeKey);
      NotInConcat('t', pre + ModeKey, Decimal(1));
      assert pre + ModeKey + Decimal(1) + [] == pre + ModeKey + Decimal(1);
    }
    AbsentKey(line, TempKey);
  }

  /** Text that starts with anything other than white space, a sign or a
      digit converts to 0. */
  lemma ToIntOfWord(t: string)
    requires |t| > 0 && !IsSpace(t[0]) && !IsDigit(t[0]) && t[0] != '-' && t[0] != '+'
    ensures ToInt(t) == 0
  {
    assert SkipSpace(t) == t;
    assert Significand(t) == t;
  }

  /** Non-numeric field text decodes to 0 rather than to an error: in
      `GET /screen?temp=<word> HTTP/1.1`, with a word such as `abc` or
      `mango`, the value becomes 0 and, as `mode=` does not occur, the mode
      is kept. */
  lemma NonNumericIsZero(st: Settings, word: string)
    requires |word| > 0 && !IsSpace(word[0]) && !IsDigit(word[0]) && word[0] != '-' && word[0] != '+'
    requires !Occurs(RoutePrefix + TempKey + word + " HTTP/1.1", ModeKey)
    requires |RoutePrefix + TempKey + word + " HTTP/1.1"| <= Int32Max
    ensures Apply(st, RoutePrefix + TempKey + word + " HTTP/1.1") == Settings(st.mode, 0)
  {
    var post := word + " HTTP/1.1";
    var line := RoutePrefix + TempKey + word + " HTTP/1.1";
    assert line == RoutePrefix + TempKey + post;
    assert StartsWith(line, RoutePrefix) by {
      assert line[..|RoutePrefix|] == RoutePrefix;
    }
    NonNumericField(line, word, post);
  }

  /** The `temp` field of `GET /screen?temp=<word>...` decodes to 0 when the
      word does not start a number. */
  lemma NonNumericField(line: string, word: string, post: string)
    requires |word| > 0 && !IsSpace(word[0]) && !IsDigit(word[0]) && word[0] != '-' && word[0] != '+'
    requires post == word + " HTTP/1.1"
    requires line == RoutePrefix + TempKey + post
    requires |line| <= Int32Max
    ensures ParseField(line, TempKey) == Some(0)
  {
    RouteLetters();
    KeyRightAfterRoute(line, TempKey, post);
    assert line == RoutePrefix + TempKey + [] + post;
    FieldTextAfterRun(line, RoutePrefix, TempKey, [], post);
    var t := FieldText(line, |RoutePrefix|);
    if |t| > 0 {
      assert t[0] == word[0];
      ToIntOfWord(t);
    }
  }
}
