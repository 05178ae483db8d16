/**
 * The string handling of the asynchronous download client
 * (matala2/PartB/asynClient.c): the suffix test that picks list files, the
 * verdict on a server's reply, the line count of a list file, and the two
 * pieces of text taken from each line of the list before its `GET` request is
 * sent: the requested path, and the directory to create for it.
 *
 * A C string argument is modelled as the characters before its NUL, a
 * pointer that may be NULL as an `Option`.
 */
module ClientText {
  import opened Wrappers
  import opened Search
  import opened CText

  // ---------------------------------------------------------------------------
  // ends_with

  /** `ends_with(str, suffix)`: false for a NULL argument or a longer suffix, else a comparison of the tail. */
  function EndsWith(str: Option<string>, suffix: Option<string>): (r: bool)
    ensures str.None? || suffix.None? ==> !r
  {
    if str.None? || suffix.None? then false
    else if |suffix.value| > |str.value| then false
    else str.value[|str.value| - |suffix.value|..] == suffix.value
  }

  /** Between two strings, `ends_with` holds exactly when the string is something followed by the suffix. */
  lemma EndsWithIffSplit(str: string, suffix: string)
    ensures EndsWith(Some(str), Some(suffix)) <==> exists p :: str == p + suffix
  {
    if EndsWith(Some(str), Some(suffix)) {
      var p := str[..|str| - |suffix|];
      assert str == p + suffix;
    }
    if exists p :: str == p + suffix {
      var p :| str == p + suffix;
      assert str[|p|..] == suffix;
    }
  }

  /** Every string ends with the empty suffix and with itself; none ends with a longer one. */
  lemma EndsWithBounds(str: string, suffix: string)
    ensures EndsWith(Some(str), Some(""))
    ensures EndsWith(Some(suffix + str), Some(str))
    ensures |suffix| > |str| ==> !EndsWith(Some(str), Some(suffix))
  {
    assert (suffix + str)[|suffix|..] == str;
  }

  // ---------------------------------------------------------------------------
  // handle_response

  const SERVER_ERROR: string := "500 Internal Server Error"
  const NOT_FOUND: string := "404 Not Found"

  /**
   * `handle_response(line)`: looks for "500 Internal Server Error" first and
   * then for "404 Not Found"; only the second alone makes it return false.
   */
  function HandleResponse(line: string): (ok: bool)
    ensures !ok <==> Contains(line, NOT_FOUND) && !Contains(line, SERVER_ERROR)
  {
    if Find(line, SERVER_ERROR).Some? then true
    else if Find(line, NOT_FOUND).Some? then false
    else true
  }

  /** A reply that contains the pattern where it was put does contain it. */
  lemma ContainsMiddle(p: string, pat: string, q: string)
    ensures Contains(p + pat + q, pat)
  {
    assert (p + pat + q)[|p|..|p| + |pat|] == pat;
    assert OccursAt(p + pat + q, pat, |p|);
  }

  /** A reply carrying "500 Internal Server Error" is accepted, whatever else it says. */
  lemma ServerErrorAccepted(p: string, q: string)
    ensures HandleResponse(p + SERVER_ERROR + q)
  {
    ContainsMiddle(p, SERVER_ERROR, q);
  }

  /** A reply carrying "404 Not Found" and not the other status is rejected. */
  lemma NotFoundRejected(p: string, q: string)
    requires !Contains(p + NOT_FOUND + q, SERVER_ERROR)
    ensures !HandleResponse(p + NOT_FOUND + q)
  {
    ContainsMiddle(p, NOT_FOUND, q);
  }

  // ---------------------------------------------------------------------------
  // count_lines

  /**
   * The counting loop of `count_lines`: the number of newlines read, plus one;
   * -1 when the file could not be opened (`None`).
   */
  method CountLines(content: Option<seq<char>>) returns (lines: int)
    ensures content.None? ==> lines == -1
    ensures content.Some? ==> lines == multiset(content.value)['\n'] + 1
  {
    if content.None? {
      return -1;
    }
    var s := content.value;
    var count := 0;
    var i := 0;
    while i < |s|
      invariant 0 <= i <= |s|
      invariant count == multiset(s[..i])['\n']
    {
      assert s[..i + 1] == s[..i] + [s[i]];
      if s[i] == '\n' {
        count := count + 1;
      }
      i := i + 1;
    }
    assert s[..i] == s;
    lines := count + 1;
  }

  /** Appending a line and its newline adds exactly one to the count. */
  lemma CountLinesAppend(s: seq<char>, line: seq<char>)
    requires '\n' !in line
    ensures multiset(s + line + ['\n'])['\n'] == multiset(s)['\n'] + 1
  {
    assert multiset(line)['\n'] == 0;
  }

  // ---------------------------------------------------------------------------
  // The path of a list line

  /** Where the path starts in a line: one past its first space (`strstr(line, " ") + 1`). */
  function PathStart(buf: seq<char>): (start: nat)
    requires ' ' in CStr(buf)
    ensures 1 <= start <= |CStr(buf)| && CStr(buf)[start - 1] == ' '
    ensures ' ' !in CStr(buf)[..start - 1]
  {
    FirstIndex(CStr(buf), ' ').value + 1
  }

  /** The path a list line asks for: the text after its first space, less one trailing newline. */
  function RequestPath(text: string): string
    requires ' ' in text
  {
    var rest := text[FirstIndex(text, ' ').value + 1..];
    if rest != [] && rest[|rest| - 1] == '\n' then rest[..|rest| - 1] else rest
  }

  /** A list line "host path\n" or "host path" asks for path. */
  lemma RequestPathOfLine(host: string, path: string)
    requires ' ' !in host && '\n' !in path
    ensures RequestPath(host + " " + path + "\n") == path
    ensures RequestPath(host + " " + path) == path
  {
    var line := host + " " + path;
    assert forall k :: 0 <= k < |host| ==> line[..|host|][k] == host[k];
    FirstIndexAt(line, ' ', |host|);
    assert line[|host| + 1..] == path;
    var full := line + "\n";
    assert forall k :: 0 <= k < |host| ==> full[..|host|][k] == host[k];
    FirstIndexAt(full, ' ', |host|);
    assert full[|host| + 1..] == path + "\n";
    if path != [] {
      assert path[|path| - 1] in path;
    }
  }

  /**
   * The line buffer after the trimming code ran: a NUL written over the last
   * character when it is a newline, else over the terminating NUL. When the
   * path is empty, `strlen(file_path) - 1` wraps around and, on a flat
   * address space, addresses the space itself, which is not a newline.
   */
  function TrimmedLine(buf: seq<char>): (out: seq<char>)
    requires '\0' in buf && ' ' in CStr(buf)
    ensures |out| == |buf|
  {
    var text := CStr(buf);
    if text[|text| - 1] == '\n' then buf[|text| - 1 := '\0'] else buf[|text| := '\0']
  }

  /** A NUL written at m ends the C string that starts at `start` there. */
  lemma CutAt(buf: seq<char>, start: nat, m: nat)
    requires start <= m < |buf| && '\0' !in buf[start..m]
    ensures CStr(buf[m := '\0'][start..]) == buf[start..m]
  {
    var out := buf[m := '\0'][start..];
    assert out[m - start] == '\0';
    assert out[..m - start] == buf[start..m];
    CStrAt(out, m - start);
  }

  /** After trimming, the C string at the path start is the requested path, and nothing before it changed. */
  lemma TrimmedLineSpec(buf: seq<char>)
    requires '\0' in buf && ' ' in CStr(buf)
    ensures CStr(TrimmedLine(buf)[PathStart(buf)..]) == RequestPath(CStr(buf))
    ensures TrimmedLine(buf)[..PathStart(buf)] == buf[..PathStart(buf)]
  {
    var text := CStr(buf);
    var m := if text[|text| - 1] == '\n' then |text| - 1 else |text|;
    TrimmedCut(buf, m);
    TrimAt(buf, text, PathStart(buf), m);
  }

  /** Where the trimming code writes its NUL, and the path that leaves. */
  lemma TrimmedCut(buf: seq<char>, m: nat)
    requires '\0' in buf && ' ' in CStr(buf)
    requires m == if CStr(buf)[|CStr(buf)| - 1] == '\n' then |CStr(buf)| - 1 else |CStr(buf)|
    ensures TrimmedLine(buf) == buf[m := '\0']
    ensures PathStart(buf) <= m <= |CStr(buf)| && m < |buf|
    ensures RequestPath(CStr(buf)) == CStr(buf)[PathStart(buf)..m]
  {
    var text := CStr(buf);
    assert text[PathStart(buf) - 1] == ' ';
  }

  /** A NUL written at m, within the C string or over its NUL, cuts the string at the path start there. */
  lemma TrimAt(buf: seq<char>, text: string, start: nat, m: nat)
    requires text == CStr(buf) && start <= m <= |text| && m < |buf|
    ensures CStr(buf[m := '\0'][start..]) == text[start..m]
    ensures buf[m := '\0'][..start] == buf[..start]
  {
    SameSlice(buf, text, start, m);
    CutAt(buf, start, m);
  }

  /** A slice of the C string is the same slice of its buffer, and holds no NUL. */
  lemma SameSlice(buf: seq<char>, text: string, a: nat, b: nat)
    requires '\0' !in text && |text| <= |buf| && text == buf[..|text|] && a <= b <= |text|
    ensures buf[a..b] == text[a..b] && '\0' !in buf[a..b]
  {
    forall k | a <= k < b ensures buf[k] != '\0' {
      assert buf[k] == text[k] && text[k] in text;
    }
    assert forall j :: 0 <= j < b - a ==> buf[a..b][j] == buf[a + j];
  }

  /**
   * Lines 293-301 on the line buffer filled by `fgets`: find the path and cut
   * a trailing newline off it in place. Returns where the path starts.
   */
  method TrimRequestPath(line: array<char>) returns (start: nat)
    requires '\0' in line[..] && ' ' in CStr(line[..])
    modifies line
    ensures start == PathStart(old(line[..]))
    ensures line[..] == TrimmedLine(old(line[..]))
  {
    ghost var buf := line[..];
    ghost var text := CStr(buf);
    start := FirstIndex(CStr(line[..]), ' ').value + 1;
    var len := |CStr(line[start..])|;
    assert start + len == |text| by {
      CStrSuffix(buf, start);
      assert buf[start..] == line[start..];
    }
    ghost var m := if text[|text| - 1] == '\n' then |text| - 1 else |text|;
    TrimmedCut(buf, m);
    assert line[start + len - 1] == text[|text| - 1];
    if line[start + len - 1] == '\n' {
      line[start + len - 1] := '\0';
    } else {
      line[start + len] := '\0';
    }
  }

  // ---------------------------------------------------------------------------
  // The directory of a path

  /**
   * Lines 147-151 and 311-315: `strrchr(dir, '/')` on a copy of the path, and
   * a NUL written there. The directory is the text before the last '/'; with
   * no '/' nothing is created.
   */
  function DirectoryToCreate(path: string): (dir: Option<string>)
    ensures dir.None? <==> '/' !in path
    ensures dir.Some? ==> |dir.value| < |path| && path[..|dir.value|] == dir.value && path[|dir.value|] == '/'
    ensures dir.Some? ==> '/' !in path[|dir.value| + 1..]
  {
    match LastIndex(path, '/')
    case None => None
    case Some(i) => Some(path[..i])
  }

  /** The directory of "dir/name", for a name without '/', is dir. */
  lemma DirectoryOfJoin(dir: string, name: string)
    requires '/' !in name
    ensures DirectoryToCreate(dir + "/" + name) == Some(dir)
  {
    var path := dir + "/" + name;
    assert path[|dir|] == '/';
    assert path[|dir| + 1..] == name;
    assert path[..|dir|] == dir;
  }
}
