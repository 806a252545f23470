/** File upload: the chunk loop, the scripts it sends, what they do to the remote file, and how long they are. */
module Upload {
  import opened Bytes

  /** The base64 library: any two functions; `Standard` says what is known of them. */
  datatype Base64 = Base64(encode: Bytes -> string, decode: string -> Option<Bytes>)

  function EncodedLength(n: nat): nat {
    4 * ((n + 2) / 3)
  }

  ghost predicate Standard(b64: Base64) {
    forall b: Bytes ::
      && |b64.encode(b)| == EncodedLength(|b|)
      && b64.decode(b64.encode(b)) == Some(b)
      && Plain(b64.encode(b)) && '\'' !in b64.encode(b)
  }

  predicate Plain(s: string) {
    forall i | 0 <= i < |s| :: s[i] as int < 128
  }

  const CHUNK_SIZE := 2000
  const MAX_REMOTE_PATH_LEN := 260
  const COMMAND_LIMIT := 8191

  function Utf8Width(c: char): nat {
    if c as int < 0x80 then 1 else if c as int < 0x800 then 2 else if c as int < 0x10000 then 3 else 4
  }

  function Utf8Length(s: string): nat {
    if s == [] then 0 else Utf8Width(s[0]) + Utf8Length(s[1..])
  }

  predicate Control(c: char) {
    c as int < 0x20 || 0x7F <= c as int < 0xA0
  }

  datatype UploadError = PathTooLong | ControlCharacter | LocalFile | NoShell | Remote(chunk: nat)

  /** `validate_remote_path`: the limit counts UTF-8 bytes. */
  function PathError(path: string): Option<UploadError> {
    if Utf8Length(path) > MAX_REMOTE_PATH_LEN then Some(PathTooLong)
    else if exists c | c in path :: Control(c) && c != '\t' then Some(ControlCharacter)
    else None
  }

  /** UTF-8 (RFC 3629 section 3). */
  function Utf8(s: string): Bytes {
    if s == [] then [] else Utf8Char(s[0]) + Utf8(s[1..])
  }

  function Utf8Char(c: char): (b: Bytes)
    ensures |b| == Utf8Width(c)
  {
    var n := c as int;
    if n < 0x80 then [n]
    else if n < 0x800 then [0xC0 + n / 64, 0x80 + n % 64]
    else if n < 0x10000 then [0xE0 + n / 64 / 64, 0x80 + n / 64 % 64, 0x80 + n % 64]
    else [0xF0 + n / 64 / 64 / 64, 0x80 + n / 64 / 64 % 64, 0x80 + n / 64 % 64, 0x80 + n % 64]
  }

  /** The length of a sequence from its first byte, and the bits that byte carries. */
  function Lead(first: Byte): Option<(nat, nat)> {
    if first < 0x80 then Some((1, first))
    else if 0xC0 <= first < 0xE0 then Some((2, first - 0xC0))
    else if 0xE0 <= first < 0xF0 then Some((3, first - 0xE0))
    else if 0xF0 <= first < 0xF8 then Some((4, first - 0xF0))
    else None
  }

  /** Six bits from each continuation byte. */
  function Tail(high: nat, b: Bytes): Option<nat>
    decreases b
  {
    if b == [] then Some(high)
    else if 0x80 <= b[0] < 0xC0 then Tail(64 * high + (b[0] - 0x80), b[1..])
    else None
  }

  /** Reading UTF-8: the shortest form of every scalar value and nothing else. */
  function FromUtf8(b: Bytes): Option<string> {
    if b == [] then Some([]) else
      var lead := Lead(b[0]);
      if lead.None? || lead.value.0 > |b| then None else
        var (width, high) := lead.value;
        var n := Tail(high, b[1..width]);
        if n.None? || !Scalar(n.value) || n.value < Least(width) then None else
          var rest := FromUtf8(b[width..]);
          if rest.None? then None else Some([n.value as char] + rest.value)
  }

  predicate Scalar(n: nat) {
    n < 0xD800 || 0xE000 <= n < 0x110000
  }

  /** The first number that needs `width` bytes. */
  function Least(width: nat): nat {
    if width < 2 then 0 else if width == 2 then 0x80 else if width == 3 then 0x800 else 0x10000
  }

  lemma TailOne(high: nat, a: Byte)
    ensures 0x80 <= a < 0xC0 ==> Tail(high, [a]) == Some(64 * high + a - 0x80)
  {
    assert [a][1..] == [];
  }

  lemma TailTwo(high: nat, a: Byte, b: Byte)
    requires 0x80 <= a < 0xC0 && 0x80 <= b < 0xC0
    ensures Tail(high, [a, b]) == Some(4096 * high + 64 * (a - 0x80) + b - 0x80)
  {
    assert [a, b][1..] == [b];
    TailOne(64 * high + (a - 0x80), b);
  }

  lemma TailThree(high: nat, a: Byte, b: Byte, c: Byte)
    requires 0x80 <= a < 0xC0 && 0x80 <= b < 0xC0 && 0x80 <= c < 0xC0
    ensures Tail(high, [a, b, c]) == Some(262144 * high + 4096 * (a - 0x80) + 64 * (b - 0x80) + c - 0x80)
  {
    assert [a, b, c][1..] == [b, c];
    TailTwo(64 * high + (a - 0x80), b, c);
  }

  /** One character is read back from its bytes, which begin with its lead byte. */
  lemma CharTail(c: char)
    ensures var b := Utf8Char(c);
            Lead(b[0]).Some? && Lead(b[0]).value.0 == |b| && Tail(Lead(b[0]).value.1, b[1..]) == Some(c as int)
            && Least(|b|) <= c as int
  {
    var b := Utf8Char(c);
    if |b| == 2 {
      assert b[1..] == [b[1]];
      TailOne(b[0] - 0xC0, b[1]);
    } else if |b| == 3 {
      assert b[1..] == [b[1], b[2]];
      TailTwo(b[0] - 0xE0, b[1], b[2]);
    } else if |b| == 4 {
      assert b[1..] == [b[1], b[2], b[3]];
      TailThree(b[0] - 0xF0, b[1], b[2], b[3]);
    }
  }

  /** A text is read back from its UTF-8 bytes, whose number is the length that counts. */
  lemma {:induction false} Utf8RoundTrip(s: string)
    ensures FromUtf8(Utf8(s)) == Some(s) && |Utf8(s)| == Utf8Length(s)
  {
    if s != [] {
      var head := Utf8Char(s[0]);
      Utf8RoundTrip(s[1..]);
      CharTail(s[0]);
      hide Utf8Char, Tail, Lead, Least;
      var b := head + Utf8(s[1..]);
      assert b[1..|head|] == head[1..] && b[|head|..] == Utf8(s[1..]);
      assert s == [s[0]] + s[1..];
    }
  }

  lemma Sextet(high: nat, low: nat)
    requires low < 64
    ensures (64 * high + low) / 64 == high && (64 * high + low) % 64 == low
  {
  }

  lemma CharOfTwo(high: nat, a: nat)
    requires 2 <= high < 32 && a < 64
    ensures Utf8Char((64 * high + a) as char) == [0xC0 + high, 0x80 + a]
  {
    Sextet(high, a);
  }

  lemma CharOfThree(high: nat, a: nat, b: nat)
    requires high < 16 && a < 64 && b < 64 && Scalar(4096 * high + 64 * a + b) && 0x800 <= 4096 * high + 64 * a + b
    ensures Utf8Char((4096 * high + 64 * a + b) as char) == [0xE0 + high, 0x80 + a, 0x80 + b]
  {
    Sextet(high, a);
    Sextet(64 * high + a, b);
  }

  lemma CharOfFour(high: nat, a: nat, b: nat, c: nat)
    requires high < 8 && a < 64 && b < 64 && c < 64
    requires 0x10000 <= 262144 * high + 4096 * a + 64 * b + c < 0x110000
    ensures Utf8Char((262144 * high + 4096 * a + 64 * b + c) as char)
         == [0xF0 + high, 0x80 + a, 0x80 + b, 0x80 + c]
  {
    Sextet(high, a);
    Sextet(64 * high + a, b);
    Sextet(4096 * high + 64 * a + b, c);
  }

  /** One character that is read is read from its own bytes. */
  lemma CharOnly(b: Bytes, high: nat, n: nat)
    requires b != [] && Lead(b[0]) == Some((|b|, high)) && Tail(high, b[1..]) == Some(n)
    requires Scalar(n) && Least(|b|) <= n
    ensures Utf8Char(n as char) == b
  {
    TailRange(high, b[1..]);
    if |b| == 1 {
    } else {
      hide Tail, Utf8Char;
      var t := b[1..];
      if |b| == 2 {
        assert t == [t[0]] && b == [b[0], t[0]];
        TailOne(high, t[0]);
        CharOfTwo(high, t[0] - 0x80);
      } else if |b| == 3 {
        assert t == [t[0], t[1]] && b == [b[0], t[0], t[1]];
        TailTwo(high, t[0], t[1]);
        CharOfThree(high, t[0] - 0x80, t[1] - 0x80);
      } else {
        assert t == [t[0], t[1], t[2]] && b == [b[0], t[0], t[1], t[2]];
        TailThree(high, t[0], t[1], t[2]);
        CharOfFour(high, t[0] - 0x80, t[1] - 0x80, t[2] - 0x80);
      }
    }
  }

  lemma {:induction false} TailRange(high: nat, b: Bytes)
    requires Tail(high, b).Some?
    ensures forall k | 0 <= k < |b| :: 0x80 <= b[k] < 0xC0
    decreases b
  {
    if b != [] {
      TailRange(64 * high + (b[0] - 0x80), b[1..]);
      assert forall k | 1 <= k < |b| :: b[k] == b[1..][k - 1];
    }
  }

  lemma Utf8Head(c: char, rest: string)
    ensures Utf8([c] + rest) == Utf8Char(c) + Utf8(rest)
  {
    assert ([c] + rest)[1..] == rest;
  }

  /** Nothing but the UTF-8 bytes of a text is read as that text. */
  lemma {:induction false} Utf8Only(b: Bytes)
    requires FromUtf8(b).Some?
    ensures Utf8(FromUtf8(b).value) == b
  {
    if b != [] {
      var (width, high) := Lead(b[0]).value;
      var n := Tail(high, b[1..width]).value;
      Utf8Only(b[width..]);
      var rest := FromUtf8(b[width..]).value;
      assert FromUtf8(b).value == [n as char] + rest;
      hide Lead, Tail, FromUtf8, Utf8Char, Least;
      assert b[..width][1..] == b[1..width] && b == b[..width] + b[width..];
      CharOnly(b[..width], high, n);
      Utf8Head(n as char, rest);
    }
  }

  /** Which paths are refused: more than 260 bytes of UTF-8, or a control character other than the tab. */
  lemma PathErrorMeans(path: string)
    ensures PathError(path) == Some(PathTooLong) <==> |Utf8(path)| > 260
    ensures PathError(path) == Some(ControlCharacter) <==>
              && |Utf8(path)| <= 260
              && exists i | 0 <= i < |path| :: path[i] as int < 9 || 10 <= path[i] as int < 32
                                               || 127 <= path[i] as int < 160
    ensures PathError(path).Some? ==> PathError(path).value in {PathTooLong, ControlCharacter}
  {
    Utf8RoundTrip(path);
    hide Utf8, Utf8Length;
    if i :| 0 <= i < |path| && Control(path[i]) && path[i] != '\t' {
      assert path[i] in path;
    }
  }

  /** `replace('\'', "''")`. */
  function Doubled(s: string): string {
    if s == [] then [] else (if s[0] == '\'' then "''" else [s[0]]) + Doubled(s[1..])
  }

  const BYTES_FROM := "$bytes = [Convert]::" + "FromBase64String('"
  const WRITE_TO := "'); [IO.File]::WriteAllBytes('"
  const WRITE_END := "', $bytes)"
  const APPEND_TO := "'); $f = [IO.File]::Open('"
  const APPEND_MODE := "', 'Append'); "
  const APPEND_WRITE := "$f.Write($bytes, 0, " + "$bytes.Length); $f.Close()"
  const APPEND_END := APPEND_MODE + APPEND_WRITE

  /** The script of one chunk: the first replaces the file, the others append to it. */
  function Script(b64: Base64, path: string, chunk: Bytes, first: bool): string {
    if first then BYTES_FROM + (b64.encode(chunk) + (WRITE_TO + (Doubled(path) + WRITE_END)))
    else BYTES_FROM + (b64.encode(chunk) + (APPEND_TO + (Doubled(path) + APPEND_END)))
  }

  function Min(a: nat, b: nat): nat {
    if a < b then a else b
  }

  /** The number of chunks of `data`; the last one may be short. */
  function ChunkCount(data: Bytes): (n: nat)
    ensures n * CHUNK_SIZE < |data| + CHUNK_SIZE && |data| <= n * CHUNK_SIZE
  {
    (|data| + CHUNK_SIZE - 1) / CHUNK_SIZE
  }

  function Chunk(data: Bytes, i: nat): Bytes
    requires i < ChunkCount(data)
  {
    data[i * CHUNK_SIZE..Min((i + 1) * CHUNK_SIZE, |data|)]
  }

  /** Every chunk but the last is full, and none is empty. */
  lemma ChunkLengths(data: Bytes, i: nat)
    requires i < ChunkCount(data)
    ensures i < ChunkCount(data) - 1 ==> |Chunk(data, i)| == 2000
    ensures i == ChunkCount(data) - 1 ==> 0 < |Chunk(data, i)| <= 2000
  {
  }

  /** The text of both kinds of script. */
  lemma ScriptText(b64: Base64, path: string, chunk: Bytes)
    ensures Script(b64, path, chunk, true)
         == "$bytes = [Convert]::" + "FromBase64String('"
            + (b64.encode(chunk) + ("'); [IO.File]::WriteAllBytes('" + (Doubled(path) + "', $bytes)")))
    ensures Script(b64, path, chunk, false)
         == "$bytes = [Convert]::" + "FromBase64String('"
            + (b64.encode(chunk) + ("'); $f = [IO.File]::Open('" + (Doubled(path) + ("', 'Append'); "
            + ("$f.Write($bytes, 0, " + "$bytes.Length); $f.Close()")))))
  {
  }

  function Scripts(b64: Base64, path: string, data: Bytes): (r: seq<string>)
    ensures |r| == ChunkCount(data)
  {
    seq(ChunkCount(data), i requires 0 <= i < ChunkCount(data) => Script(b64, path, Chunk(data, i), i == 0))
  }

  /**
   `upload_file`. `local` is what reading the local file gives, `shell` says whether the remote shell opens,
   and `exits(i)` is the exit code of the script of chunk `i`, if it runs at all. The scripts are sent in
   order until one of them fails.
   */
  method UploadFile(b64: Base64, path: string, local: Option<Bytes>, shell: bool, exits: nat -> Option<int>)
      returns (r: Result<nat, UploadError>, sent: seq<string>)
    ensures PathError(path).Some? ==> r == Err(PathError(path).value) && sent == []
    ensures PathError(path).None? && local.None? ==> r == Err(LocalFile) && sent == []
    ensures PathError(path).None? && local.Some? && !shell ==> r == Err(NoShell) && sent == []
    ensures PathError(path).None? && local.Some? && shell ==>
              && sent <= Scripts(b64, path, local.value)
              && (r.Ok? ==> r.value == |local.value| && sent == Scripts(b64, path, local.value)
                            && forall i: nat | i < |sent| :: exits(i) == Some(0))
              && (r.Err? ==> sent != [] && r.error == Remote(|sent| - 1) && exits(|sent| - 1) != Some(0)
                             && forall i: nat | i < |sent| - 1 :: exits(i) == Some(0))
  {
    hide Utf8Length, Doubled, BYTES_FROM, WRITE_TO, WRITE_END, APPEND_TO, APPEND_END;
    sent := [];
    var error := PathError(path);
    if error.Some? {
      return Err(error.value), sent;
    }
    if local == None {
      return Err(LocalFile), sent;
    }
    var data := local.value;
    if !shell {
      return Err(NoShell), sent;
    }
    var escapedPath := Doubled(path);
    var i, offset := 0, 0;
    while offset < |data|
      invariant i <= ChunkCount(data) && offset == Min(i * CHUNK_SIZE, |data|)
      invariant sent == Scripts(b64, path, data)[..i]
      invariant forall k: nat | k < i :: exits(k) == Some(0)
    {
      var end := Min(offset + CHUNK_SIZE, |data|);
      var chunk := data[offset..end];
      var encoded := b64.encode(chunk);
      var script := if i == 0
                    then BYTES_FROM + (encoded + (WRITE_TO + (escapedPath + WRITE_END)))
                    else BYTES_FROM + (encoded + (APPEND_TO + (escapedPath + APPEND_END)));
      assert script == Scripts(b64, path, data)[i];
      sent := sent + [script];
      if exits(i) != Some(0) {
        return Err(Remote(i)), sent;
      }
      i, offset := i + 1, end;
    }
    return Ok(|data|), sent;
  }

  /** What a script does on the remote host. */
  datatype Effect = Effect(path: string, contents: Bytes, append: bool)

  function After(prefix: string, s: string): Option<string> {
    if prefix <= s then Some(s[|prefix|..]) else None
  }

  /** U+2018 to U+201B, which PowerShell reads as single quotes too. */
  predicate Typographic(c: char) {
    0x2018 <= c as int <= 0x201B
  }

  predicate Quote(c: char) {
    c == '\'' || Typographic(c)
  }

  predicate NoTypographicQuote(s: string) {
    forall c | c in s :: !Typographic(c)
  }

  /** The rest of a quoted literal: two quotes of any kind stand for the second, a single one ends it. */
  function ReadLiteral(s: string): Option<(string, string)> {
    if s == [] then None
    else if !Quote(s[0]) then
      match ReadLiteral(s[1..])
      case None => None
      case Some((text, rest)) => Some(([s[0]] + text, rest))
    else if |s| > 1 && Quote(s[1]) then
      match ReadLiteral(s[2..])
      case None => None
      case Some((text, rest)) => Some(([s[1]] + text, rest))
    else Some(([], s))
  }

  function CallMeaning(b64: Base64, encoded: string, call: string, to: string, end: string,
                       append: bool): Option<Effect> {
    match After(to, call)
    case None => None
    case Some(s) =>
      match ReadLiteral(s)
      case None => None
      case Some((path, rest)) =>
        if rest != end || b64.decode(encoded).None? then None
        else Some(Effect(path, b64.decode(encoded).value, append))
  }

  /** Reading a script as the host does: the contents as a base64 literal, a call, and the path as a literal. */
  function Meaning(b64: Base64, script: string): Option<Effect> {
    match After(BYTES_FROM, script)
    case None => None
    case Some(s) =>
      match ReadLiteral(s)
      case None => None
      case Some((encoded, call)) =>
        var write := CallMeaning(b64, encoded, call, WRITE_TO, WRITE_END, false);
        if write.Some? then write else CallMeaning(b64, encoded, call, APPEND_TO, APPEND_END, true)
  }

  type Files = map<string, Bytes>

  function Apply(files: Files, e: Effect): Files {
    files[e.path := (if e.append && e.path in files then files[e.path] else []) + e.contents]
  }

  /** The remote files after running `scripts` in order; a script the host cannot read changes nothing. */
  function Replay(b64: Base64, scripts: seq<string>, files: Files): Files {
    if scripts == [] then files else
      var before := Replay(b64, scripts[..|scripts| - 1], files);
      match Meaning(b64, scripts[|scripts| - 1])
      case None => before
      case Some(e) => Apply(before, e)
  }

  /** A text that ends the literal before it. */
  predicate Closes(s: string) {
    |s| > 1 && s[0] == '\'' && !Quote(s[1])
  }

  lemma LiteralsClose()
    ensures Closes(WRITE_TO) && Closes(WRITE_END) && Closes(APPEND_TO) && Closes(APPEND_END)
    ensures |WRITE_TO| > 4 && |APPEND_TO| > 4 && WRITE_TO[4] != APPEND_TO[4]
  {
    assert APPEND_END[0] == APPEND_MODE[0] && APPEND_END[1] == APPEND_MODE[1];
  }

  lemma {:induction false} ReadDoubled(text: string, rest: string)
    requires Closes(rest) && NoTypographicQuote(text)
    ensures ReadLiteral(Doubled(text) + rest) == Some((text, rest))
  {
    var s := Doubled(text) + rest;
    if text == [] {
      assert s == rest;
    } else {
      assert forall c | c in text[1..] :: c in text;
      ReadDoubled(text[1..], rest);
      var tail := Doubled(text[1..]) + rest;
      assert text[0] in text;
      if text[0] == '\'' {
        assert s == "''" + tail;
        assert s[2..] == tail;
      } else {
        assert s == [text[0]] + tail;
        assert s[1..] == tail;
      }
      assert text == [text[0]] + text[1..];
    }
  }

  function Quotes(s: string): nat {
    if s == [] then 0 else (if s[0] == '\'' then 1 else 0) + Quotes(s[1..])
  }

  /** Quotes of every kind. */
  function AllQuotes(s: string): nat {
    if s == [] then 0 else (if Quote(s[0]) then 1 else 0) + AllQuotes(s[1..])
  }

  lemma {:induction false} DoubledLength(s: string)
    ensures |Doubled(s)| == |s| + Quotes(s)
  {
    if s != [] {
      DoubledLength(s[1..]);
    }
  }

  /** Every quote in a text that is read took two characters. */
  lemma {:induction false} ReadLength(s: string)
    ensures ReadLiteral(s).Some? ==>
              var (text, rest) := ReadLiteral(s).value; |s| == |text| + AllQuotes(text) + |rest|
    decreases |s|
  {
    if s != [] && !Quote(s[0]) {
      ReadLength(s[1..]);
      if ReadLiteral(s[1..]).Some? {
        AllQuotesHead(s[0], ReadLiteral(s[1..]).value.0);
      }
    } else if |s| > 1 && Quote(s[1]) {
      ReadLength(s[2..]);
      if ReadLiteral(s[2..]).Some? {
        AllQuotesHead(s[1], ReadLiteral(s[2..]).value.0);
      }
    }
  }

  lemma AllQuotesHead(c: char, text: string)
    ensures AllQuotes([c] + text) == (if Quote(c) then 1 else 0) + AllQuotes(text)
  {
    assert ([c] + text)[1..] == text;
  }

  lemma {:induction false} QuotesAgree(s: string)
    ensures Quotes(s) <= AllQuotes(s)
    ensures Quotes(s) == AllQuotes(s) ==> NoTypographicQuote(s)
  {
    if s != [] {
      QuotesAgree(s[1..]);
      assert forall c | c in s :: c == s[0] || c in s[1..];
    }
  }

  /** A doubled text is read back exactly when it holds no typographic quote. */
  lemma DoubledRoundTrip(text: string, rest: string)
    requires Closes(rest)
    ensures ReadLiteral(Doubled(text) + rest) == Some((text, rest)) <==> NoTypographicQuote(text)
  {
    if NoTypographicQuote(text) {
      ReadDoubled(text, rest);
    } else {
      ReadLength(Doubled(text) + rest);
      DoubledLength(text);
      QuotesAgree(text);
    }
  }

  lemma {:induction false} DoubledPlain(s: string)
    requires '\'' !in s
    ensures Doubled(s) == s
  {
    if s != [] {
      DoubledPlain(s[1..]);
    }
  }

  /** The effect of a script with the chunk of its own and a path as the host reads it. */
  lemma MeaningReads(b64: Base64, path: string, chunk: Bytes, first: bool)
    requires Standard(b64)
    ensures var end := if first then WRITE_END else APPEND_END;
            Meaning(b64, Script(b64, path, chunk, first)) == match ReadLiteral(Doubled(path) + end)
              case None => None
              case Some((read, rest)) => if rest == end then Some(Effect(read, chunk, !first)) else None
  {
    LiteralsClose();
    var encoded := b64.encode(chunk);
    assert NoTypographicQuote(encoded);
    hide BYTES_FROM, WRITE_TO, WRITE_END, APPEND_TO, APPEND_END, ReadLiteral, Doubled, Closes, NoTypographicQuote;
    var (to, end) := if first then (WRITE_TO, WRITE_END) else (APPEND_TO, APPEND_END);
    var call := to + (Doubled(path) + end);
    assert Script(b64, path, chunk, first) == BYTES_FROM + (encoded + call);
    hide Script;
    assert (BYTES_FROM + (encoded + call))[|BYTES_FROM|..] == encoded + call;
    DoubledPlain(encoded);
    ClosesLonger(to, Doubled(path) + end);
    ReadDoubled(encoded, call);
    assert call[|to|..] == Doubled(path) + end;
    assert call[4] == to[4];
  }

  /**
   A script replaces or extends the file of its path with the chunk, and no other, exactly when the path
   holds no typographic quote.
   */
  lemma ScriptMeaning(b64: Base64, path: string, chunk: Bytes, first: bool)
    requires Standard(b64)
    ensures Meaning(b64, Script(b64, path, chunk, first)) == Some(Effect(path, chunk, !first))
            <==> NoTypographicQuote(path)
  {
    LiteralsClose();
    hide BYTES_FROM, WRITE_TO, WRITE_END, APPEND_TO, APPEND_END, ReadLiteral;
    hide Doubled, Closes, NoTypographicQuote, Script, Meaning;
    MeaningReads(b64, path, chunk, first);
    DoubledRoundTrip(path, if first then WRITE_END else APPEND_END);
  }

  /** A path that passes validation and whose scripts the host cannot read. */
  lemma TypographicPathUnread(b64: Base64, chunk: Bytes, first: bool)
    requires Standard(b64)
    ensures var path := ['i', 't', 0x2019 as char, 's'];
            PathError(path).None? && Meaning(b64, Script(b64, path, chunk, first)) == None
  {
    var path := ['i', 't', 0x2019 as char, 's'];
    var end := if first then WRITE_END else APPEND_END;
    LiteralsClose();
    MeaningReads(b64, path, chunk, first);
    hide BYTES_FROM, WRITE_TO, WRITE_END, APPEND_TO, APPEND_END, Script, Meaning;
    FourCharactersValid(path[0], path[1], path[2], path[3]);
    FourCharactersRead(path[0], path[1], path[2], path[3], end);
    hide PathError, ReadLiteral, Doubled;
  }

  lemma FourCharactersValid(a: char, b: char, c: char, d: char)
    requires a == 'i' && b == 't' && c == 0x2019 as char && d == 's'
    ensures PathError([a, b, c, d]).None?
  {
    assert [d][1..] == [] && [c, d][1..] == [d] && [b, c, d][1..] == [c, d] && [a, b, c, d][1..] == [b, c, d];
    assert Utf8Length([d]) == 1;
    assert Utf8Length([c, d]) == 4;
    assert Utf8Length([b, c, d]) == 5;
    assert Utf8Length([a, b, c, d]) == 6;
    hide Utf8Length;
  }

  lemma FourCharactersRead(a: char, b: char, c: char, d: char, end: string)
    requires a == 'i' && b == 't' && c == 0x2019 as char && d == 's'
    ensures ReadLiteral(Doubled([a, b, c, d]) + end) == Some(([a, b], [c, d] + end))
  {
    var path := [a, b, c, d];
    DoubledPlain(path);
    hide Doubled, ReadLiteral;
    ReadOn(c, [d] + end);
    assert [c, d] + end == [c] + ([d] + end);
    ReadOn(b, [c, d] + end);
    assert [b, c, d] + end == [b] + ([c, d] + end);
    ReadOn(a, [b, c, d] + end);
    assert path + end == [a] + ([b, c, d] + end);
    assert [b] + [] == [b] && [a] + [b] == [a, b];
  }

  lemma ReadOn(c: char, tail: string)
    ensures !Quote(c) ==> ReadLiteral([c] + tail) == match ReadLiteral(tail)
              case None => None
              case Some((text, rest)) => Some(([c] + text, rest))
    ensures Quote(c) && (tail == [] || !Quote(tail[0])) ==> ReadLiteral([c] + tail) == Some(([], [c] + tail))
  {
    assert ([c] + tail)[1..] == tail;
  }

  lemma ClosesLonger(a: string, b: string)
    requires Closes(a)
    ensures Closes(a + b)
  {
  }

  /** The file after `k` of the chunks. */
  lemma {:induction false} PrefixRebuilds(b64: Base64, path: string, data: Bytes, files: Files, k: nat)
    requires Standard(b64) && NoTypographicQuote(path) && k <= ChunkCount(data)
    ensures Replay(b64, Scripts(b64, path, data)[..k], files)
         == if k == 0 then files else files[path := data[..Min(k * CHUNK_SIZE, |data|)]]
  {
    hide Meaning, Script, NoTypographicQuote;
    var scripts := Scripts(b64, path, data);
    if k > 0 {
      PrefixRebuilds(b64, path, data, files, k - 1);
      assert scripts[..k][..k - 1] == scripts[..k - 1];
      ScriptMeaning(b64, path, Chunk(data, k - 1), k == 1);
      var before := data[..Min((k - 1) * CHUNK_SIZE, |data|)];
      assert before + Chunk(data, k - 1) == data[..Min(k * CHUNK_SIZE, |data|)];
    }
  }

  /**
   Upload reconstruction: after all scripts the remote file equals the local data, and every other file is
   untouched; for empty data nothing is written at all.
   */
  lemma UploadRebuilds(b64: Base64, path: string, data: Bytes, files: Files)
    requires Standard(b64) && NoTypographicQuote(path)
    ensures var after := Replay(b64, Scripts(b64, path, data), files);
            && after == (if data == [] then files else files[path := data])
            && (path in after && after[path] == data <==> data != [] || (path in files && files[path] == []))
  {
    var n := ChunkCount(data);
    assert Scripts(b64, path, data)[..n] == Scripts(b64, path, data);
    PrefixRebuilds(b64, path, data, files, n);
    assert data[..|data|] == data;
  }

  /** The surrogates of a character from U+10000 on. */
  function High(c: char): (u: nat)
    requires c as int >= 0x10000
    ensures 0xD800 <= u < 0xDC00
  {
    0xD800 + (c as int - 0x10000) / 0x400
  }

  function Low(c: char): (u: nat)
    requires c as int >= 0x10000
    ensures 0xDC00 <= u < 0xE000
  {
    0xDC00 + (c as int - 0x10000) % 0x400
  }

  /** UTF-16 code units of a text. */
  function Units(s: string): seq<nat> {
    if s == [] then [] else
      var n := s[0] as int;
      (if n < 0x10000 then [n] else [High(s[0]), Low(s[0])]) + Units(s[1..])
  }

  function UnitBytes(units: seq<nat>): (b: Bytes)
    ensures |b| == 2 * |units|
  {
    if units == [] then [] else UnitBytes(units[..|units| - 1]) + LeBytes(units[|units| - 1], 2)
  }

  /** `encode_powershell_command`. */
  method EncodePowershellCommand(b64: Base64, script: string) returns (encoded: string)
    ensures encoded == b64.encode(UnitBytes(Units(script)))
  {
    var units := Units(script);
    var utf16: Bytes := [];
    for i := 0 to |units|
      invariant utf16 == UnitBytes(units[..i])
    {
      utf16 := utf16 + LeBytes(units[i], 2);
      assert units[..i + 1][..i] == units[..i];
    }
    assert units[..|units|] == units;
    encoded := b64.encode(utf16);
  }

  function Unit(b: Bytes): (u: nat)
    requires |b| == 2
    ensures u < U16
  {
    b[0] as int + 256 * b[1] as int
  }

  /** Reading little-endian UTF-16 (RFC 2781 section 2.2): pairs of surrogates are one character. */
  function FromUtf16(b: Bytes): Option<string> {
    if b == [] then Some([])
    else if |b| < 2 then None else
      var first := Unit(b[..2]);
      var pair := 0xD800 <= first < 0xDC00;
      if (pair && |b| < 4) || 0xDC00 <= first < 0xE000 then None else
        var second := if pair then Unit(b[2..4]) else 0xDC00;
        if !(0xDC00 <= second < 0xE000) then None else
          var n := if pair then 0x10000 + (first - 0xD800) * 0x400 + (second - 0xDC00) else first;
          var rest := FromUtf16(b[if pair then 4 else 2..]);
          if rest.None? then None else Some([n as char] + rest.value)
  }

  lemma {:induction false} UnitBytesSum(a: seq<nat>, b: seq<nat>)
    ensures UnitBytes(a + b) == UnitBytes(a) + UnitBytes(b)
  {
    hide LeBytes;
    if b == [] {
      assert a + b == a;
    } else {
      assert (a + b)[..|a + b| - 1] == a + b[..|b| - 1];
      UnitBytesSum(a, b[..|b| - 1]);
    }
  }

  lemma OneUnit(u: nat)
    requires u < U16
    ensures UnitBytes([u]) == LeBytes(u, 2) && Unit(LeBytes(u, 2)) == u
  {
    Le16(u);
    LeTwo(LeBytes(u, 2));
    hide LeBytes, LeValue, Unit;
    assert [u][..0] == [];
  }

  lemma LeTwo(b: Bytes)
    requires |b| == 2
    ensures Unit(b) == LeValue(b)
  {
    assert LeValue(b[1..]) == b[1] + 256 * LeValue(b[1..][1..]);
  }

  lemma ReadSingle(c: char, rest: Bytes)
    requires c as int < 0x10000 && FromUtf16(rest).Some?
    ensures FromUtf16(LeBytes(c as int, 2) + rest) == Some([c] + FromUtf16(rest).value)
  {
    OneUnit(c as int);
    hide LeBytes, Unit;
    var b := LeBytes(c as int, 2) + rest;
    assert b[..2] == LeBytes(c as int, 2) && b[2..] == rest;
  }

  lemma ReadPair(c: char, rest: Bytes)
    requires c as int >= 0x10000 && FromUtf16(rest).Some?
    ensures FromUtf16(LeBytes(High(c), 2) + LeBytes(Low(c), 2) + rest) == Some([c] + FromUtf16(rest).value)
  {
    var high, low := High(c), Low(c);
    OneUnit(high);
    OneUnit(low);
    hide LeBytes, Unit;
    var b := LeBytes(high, 2) + LeBytes(low, 2) + rest;
    assert b[..2] == LeBytes(high, 2) && b[2..4] == LeBytes(low, 2) && b[4..] == rest;
  }

  lemma {:induction false} UnitsRead(s: string)
    ensures FromUtf16(UnitBytes(Units(s))) == Some(s)
  {
    if s != [] {
      UnitsRead(s[1..]);
      var rest := Units(s[1..]);
      var n := s[0] as int;
      UnitsStep(s);
      hide Units, FromUtf16, LeBytes, UnitBytes, High, Low;
      assert s == [s[0]] + s[1..];
      if n < 0x10000 {
        UnitBytesSum([n], rest);
        OneUnit(n);
        ReadSingle(s[0], UnitBytes(rest));
      } else {
        TwoUnits(High(s[0]), Low(s[0]), rest);
        ReadPair(s[0], UnitBytes(rest));
      }
    }
  }

  lemma UnitsStep(s: string)
    requires s != []
    ensures Units(s)
         == (if s[0] as int < 0x10000 then [s[0] as int] else [High(s[0]), Low(s[0])]) + Units(s[1..])
  {
  }

  lemma TwoUnits(high: nat, low: nat, rest: seq<nat>)
    requires high < U16 && low < U16
    ensures UnitBytes([high, low] + rest) == LeBytes(high, 2) + LeBytes(low, 2) + UnitBytes(rest)
  {
    hide LeBytes, UnitBytes;
    assert [high] + [low] == [high, low];
    UnitBytesSum([high], [low]);
    UnitBytesSum([high, low], rest);
    OneUnit(high);
    OneUnit(low);
  }

  const POWERSHELL := "powershell.exe -EncodedCommand "

  function CommandLine(b64: Base64, script: string): string {
    POWERSHELL + b64.encode(UnitBytes(Units(script)))
  }

  /** The host gets the script back from the command line: from base64, then from little-endian UTF-16. */
  lemma CommandReadBack(b64: Base64, script: string)
    requires Standard(b64)
    ensures var encoded := After("powershell.exe -EncodedCommand ", CommandLine(b64, script));
            && encoded.Some? && b64.decode(encoded.value).Some?
            && FromUtf16(b64.decode(encoded.value).value) == Some(script)
  {
    UnitsRead(script);
    hide FromUtf16, Units, UnitBytes;
    assert CommandLine(b64, script)[|POWERSHELL|..] == b64.encode(UnitBytes(Units(script)));
  }

  lemma {:induction false} UnitsSum(a: string, b: string)
    ensures |Units(a + b)| == |Units(a)| + |Units(b)|
  {
    if a == [] {
      assert a + b == b;
    } else {
      assert (a + b)[1..] == a[1..] + b;
      UnitsSum(a[1..], b);
    }
  }

  lemma {:induction false} PlainUnits(s: string)
    requires Plain(s)
    ensures |Units(s)| == |s|
  {
    if s != [] {
      PlainUnits(s[1..]);
    }
  }

  lemma {:induction false} DoubledUnits(s: string)
    ensures |Units(Doubled(s))| == |Units(s)| + Quotes(s)
  {
    if s != [] {
      var head := if s[0] == '\'' then "''" else [s[0]];
      UnitsSum(head, Doubled(s[1..]));
      DoubledUnits(s[1..]);
      assert |Units(head)| == (if s[0] as int < 0x10000 then 1 else 2) + if s[0] == '\'' then 1 else 0 by {
        assert head[1..] == if s[0] == '\'' then "'" else [];
        if s[0] == '\'' {
          assert head[1..][1..] == [];
        }
      }
    }
  }

  lemma PlainSum(a: string, b: string)
    requires Plain(a) && Plain(b)
    ensures Plain(a + b)
  {
  }

  lemma BytesFromPlain()
    ensures Plain(BYTES_FROM)
  {
    var (a, b) := ("$bytes = [Convert]::", "FromBase64String('");
    assert Plain(a) && Plain(b);
    PlainSum(a, b);
  }

  lemma WritePlain()
    ensures Plain(WRITE_TO) && Plain(WRITE_END)
  {
  }

  lemma AppendToPlain()
    ensures Plain(APPEND_TO)
  {
  }

  lemma AppendEndPlain()
    ensures Plain(APPEND_END)
  {
    var (a, b) := ("$f.Write($bytes, 0, ", "$bytes.Length); $f.Close()");
    assert Plain(a) && Plain(b) && Plain(APPEND_MODE);
    hide Plain;
    PlainSum(a, b);
    PlainSum(APPEND_MODE, APPEND_WRITE);
  }

  lemma ScriptUnits(b64: Base64, path: string, chunk: Bytes, first: bool)
    requires Standard(b64)
    ensures |Units(Script(b64, path, chunk, first))|
         == (if first then 78 else 124) + EncodedLength(|chunk|) + |Units(path)| + Quotes(path)
  {
    hide Units, Quotes, Plain, EncodedLength;
    var encoded := b64.encode(chunk);
    var to, end := if first then WRITE_TO else APPEND_TO, if first then WRITE_END else APPEND_END;
    UnitsSum(BYTES_FROM, encoded + (to + (Doubled(path) + end)));
    UnitsSum(encoded, to + (Doubled(path) + end));
    UnitsSum(to, Doubled(path) + end);
    UnitsSum(Doubled(path), end);
    PlainUnits(encoded);
    DoubledUnits(path);
    BytesFromPlain();
    WritePlain();
    AppendToPlain();
    AppendEndPlain();
    PlainUnits(BYTES_FROM);
    PlainUnits(to);
    PlainUnits(end);
  }

  /** The exact condition for the command line of one chunk to fit. */
  lemma CommandFits(b64: Base64, path: string, chunk: Bytes, first: bool)
    requires Standard(b64)
    ensures |CommandLine(b64, Script(b64, path, chunk, first))| <= 8191
       <==> (if first then 78 else 124) + EncodedLength(|chunk|) + |Units(path)| + Quotes(path) <= 3060
  {
    ScriptUnits(b64, path, chunk, first);
    CommandLength(b64, Script(b64, path, chunk, first));
    LimitInUnits(|Units(Script(b64, path, chunk, first))|);
    hide Units, Quotes, Script, CommandLine, EncodedLength;
  }

  lemma CommandLength(b64: Base64, script: string)
    requires Standard(b64)
    ensures |CommandLine(b64, script)| == 31 + EncodedLength(2 * |Units(script)|)
  {
    hide Units, UnitBytes, EncodedLength;
    assert |POWERSHELL| == 31;
  }

  lemma LimitInUnits(units: nat)
    ensures 31 + EncodedLength(2 * units) <= COMMAND_LIMIT <==> units <= 3060
  {
  }

  predicate AllFit(b64: Base64, path: string, data: Bytes) {
    forall script | script in Scripts(b64, path, data) :: |CommandLine(b64, script)| <= COMMAND_LIMIT
  }

  lemma {:induction false} UnitsWithinBytes(s: string)
    ensures |Units(s)| <= Utf8Length(s)
  {
    if s != [] {
      UnitsWithinBytes(s[1..]);
    }
  }

  /** Every command of an upload fits when the path passes validation and holds at most eight single quotes. */
  lemma UploadFits(b64: Base64, path: string, data: Bytes)
    requires Standard(b64) && PathError(path).None? && Quotes(path) <= 8
    ensures AllFit(b64, path, data)
  {
    UnitsWithinBytes(path);
    hide Units, Quotes, Script, CommandLine, Utf8Length;
    forall i | 0 <= i < ChunkCount(data)
      ensures |CommandLine(b64, Scripts(b64, path, data)[i])| <= COMMAND_LIMIT
    {
      CommandFits(b64, path, Chunk(data, i), i == 0);
    }
  }

  /** A shorter chunk has no longer an encoding, and no chunk after the first is longer than the second. */
  lemma LaterChunks(data: Bytes, i: nat)
    requires 0 < i < ChunkCount(data)
    ensures |Chunk(data, i)| <= |Chunk(data, 1)| == Min(|data| - CHUNK_SIZE, CHUNK_SIZE)
    ensures EncodedLength(|Chunk(data, i)|) <= EncodedLength(|Chunk(data, 1)|)
  {
  }

  /**
   All commands of an upload fit exactly when the first one does and, for data of more than one chunk, the
   second one does; for two full chunks or more that is when the path with its quotes doubled has at most
   268 units.
   */
  lemma UploadFitsExactly(b64: Base64, path: string, data: Bytes)
    requires Standard(b64)
    ensures var units := |Units(path)| + Quotes(path);
            AllFit(b64, path, data) <==>
              && (|data| > 0 ==> 78 + EncodedLength(Min(|data|, CHUNK_SIZE)) + units <= 3060)
              && (|data| > CHUNK_SIZE ==> 124 + EncodedLength(Min(|data| - CHUNK_SIZE, CHUNK_SIZE)) + units <= 3060)
    ensures |data| >= 2 * CHUNK_SIZE ==> (AllFit(b64, path, data) <==> |Units(path)| + Quotes(path) <= 268)
  {
    assert EncodedLength(CHUNK_SIZE) == 2668;
    hide Units, Quotes, Script, CommandLine, EncodedLength;
    var scripts := Scripts(b64, path, data);
    forall i | 0 <= i < |scripts|
      ensures |CommandLine(b64, scripts[i])| <= COMMAND_LIMIT <==>
                (if i == 0 then 78 else 124) + EncodedLength(|Chunk(data, i)|) + |Units(path)| + Quotes(path) <= 3060
      ensures i > 0 ==> EncodedLength(|Chunk(data, i)|) <= EncodedLength(|Chunk(data, 1)|)
    {
      CommandFits(b64, path, Chunk(data, i), i == 0);
      if i > 0 {
        LaterChunks(data, i);
      }
    }
    hide Scripts;
    if |data| > 0 {
      assert |Chunk(data, 0)| == Min(|data|, CHUNK_SIZE) && scripts[0] in scripts;
    }
    if |data| > CHUNK_SIZE {
      assert |Chunk(data, 1)| == Min(|data| - CHUNK_SIZE, CHUNK_SIZE) && scripts[1] in scripts;
    }
  }

  function QuotePath(n: nat): (s: string)
    ensures |s| == n
  {
    seq(n, _ => '\'')
  }

  lemma {:induction false} QuotePathLengths(n: nat)
    ensures |Units(QuotePath(n))| == Quotes(QuotePath(n)) == Utf8Length(QuotePath(n)) == n
  {
    if n > 0 {
      assert QuotePath(n)[1..] == QuotePath(n - 1);
      QuotePathLengths(n - 1);
    }
  }

  /** Passing validation is not enough: this path passes, and data of two full chunks does not fit. */
  lemma ValidPathOverflows(b64: Base64, data: Bytes)
    requires Standard(b64) && |data| >= 2 * CHUNK_SIZE
    ensures PathError(QuotePath(MAX_REMOTE_PATH_LEN)).None? && !AllFit(b64, QuotePath(MAX_REMOTE_PATH_LEN), data)
  {
    QuotePathLengths(MAX_REMOTE_PATH_LEN);
    UploadFitsExactly(b64, QuotePath(MAX_REMOTE_PATH_LEN), data);
    hide AllFit, Units, Quotes, Utf8Length;
  }
}
