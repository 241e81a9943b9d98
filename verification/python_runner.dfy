/** The text handling of `arduino-mcp-adapter/python_runner.rs`: the check
    that rejects a blank script, the assembly of the script that is run,
    and the formatting of the captured console output. */
module PythonRunner {
  import opened Base

  /** Rust's `char::is_whitespace`: the Unicode `White_Space` property. */
  predicate IsWhitespace(c: char)
  {
    || ('\U{0009}' <= c <= '\U{000D}')
    || c == '\U{0020}' || c == '\U{0085}' || c == '\U{00A0}' || c == '\U{1680}'
    || ('\U{2000}' <= c <= '\U{200A}')
    || c == '\U{2028}' || c == '\U{2029}' || c == '\U{202F}' || c == '\U{205F}' || c == '\U{3000}'
  }

  /** How many white-space characters `s` starts with. */
  function LeadingWhitespace(s: string): (n: nat)
    ensures n <= |s|
    ensures forall i :: 0 <= i < n ==> IsWhitespace(s[i])
    ensures n < |s| ==> !IsWhitespace(s[n])
  {
    if s == [] || !IsWhitespace(s[0]) then 0
    else 1 + LeadingWhitespace(s[1..])
  }

  /** The length of `s` without its trailing white space. */
  function UntrailedLength(s: string): (n: nat)
    ensures n <= |s|
    ensures forall i :: n <= i < |s| ==> IsWhitespace(s[i])
    ensures n > 0 ==> !IsWhitespace(s[n - 1])
  {
    if s == [] || !IsWhitespace(s[|s| - 1]) then |s|
    else UntrailedLength(s[..|s| - 1])
  }

  /** `str::trim`: without white space at either end. */
  function Trim(s: string): string
  {
    var t := s[LeadingWhitespace(s)..];
    t[..UntrailedLength(t)]
  }

  /** `script.trim().is_empty()` holds exactly for a script made only of
      white space (including the empty script). */
  lemma BlankIffAllWhitespace(s: string)
    ensures Trim(s) == [] <==> forall i :: 0 <= i < |s| ==> IsWhitespace(s[i])
  {
    var n := LeadingWhitespace(s);
    var t := s[n..];
    assert t != [] ==> t[0] == s[n];
  }

  const BLANK_SCRIPT: string := "Python script must not be empty"

  /** The line that separates the prelude from the user's script. */
  const MARKER: string := "\n# --- User script starts here ---\n"

  /** The start of `run_python_script`: reject a blank script, else append
      the marker and the script to the prelude, ending with a newline. The
      prelude comes from a template file and is a parameter here. */
  function PrepareScript(prelude: string, script: string): (r: Result<string, string>)
    ensures r.Err? <==> forall i :: 0 <= i < |script| ==> IsWhitespace(script[i])
    ensures r.Err? ==> r.error == BLANK_SCRIPT
    ensures r.Ok? ==>
      |r.value| >= |prelude| + |MARKER| + |script|
      && r.value[..|prelude| + |MARKER| + |script|] == prelude + MARKER + script
      && r.value[|r.value| - 1] == '\n'
      && |r.value| <= |prelude| + |MARKER| + |script| + 1
    // The newline is added exactly when the script does not already end with one.
    ensures r.Ok? ==> (|r.value| == |prelude| + |MARKER| + |script| <==> script[|script| - 1] == '\n')
  {
    BlankIffAllWhitespace(script);
    if Trim(script) == [] then Err(BLANK_SCRIPT)
    else
      var full := prelude + MARKER + script;
      if script[|script| - 1] == '\n' then Ok(full)
      else
        assert (full + "\n")[..|full|] == full;
        Ok(full + "\n")
  }

  /** `trim_end_matches('\n')` */
  function TrimNewlines(s: string): (r: string)
    ensures |r| <= |s| && r == s[..|r|]
    ensures forall i :: |r| <= i < |s| ==> s[i] == '\n'
    ensures r == [] || r[|r| - 1] != '\n'
    decreases |s|
  {
    if s != [] && s[|s| - 1] == '\n' then
      var r := TrimNewlines(s[..|s| - 1]);
      assert forall i :: |r| <= i < |s| - 1 ==> s[i] == s[..|s| - 1][i];
      r
    else s
  }

  const NO_OUTPUT: string := "Python script completed without console output."
  const STDERR_HEADER: string := "[stderr]\n"

  /** `format_console_output` */
  function FormatConsoleOutput(stdout: string, stderr: string): (r: string)
    // Never empty, and never ends with a newline.
    ensures |r| > 0 && r[|r| - 1] != '\n'
    ensures TrimNewlines(stdout) == [] && TrimNewlines(stderr) == [] ==> r == NO_OUTPUT
    ensures TrimNewlines(stdout) != [] ==>
      |r| >= |TrimNewlines(stdout)| && r[..|TrimNewlines(stdout)|] == TrimNewlines(stdout)
    ensures TrimNewlines(stderr) != [] ==>
      |r| > |TrimNewlines(stderr)| && r[|r| - |TrimNewlines(stderr)|..] == TrimNewlines(stderr)
    // The four shapes: nothing, standard output alone, the marked error
    // stream alone, or both separated by a line break.
    ensures TrimNewlines(stderr) == [] && TrimNewlines(stdout) != [] ==> r == TrimNewlines(stdout)
    ensures TrimNewlines(stdout) == [] && TrimNewlines(stderr) != [] ==> r == STDERR_HEADER + TrimNewlines(stderr)
    ensures TrimNewlines(stdout) != [] && TrimNewlines(stderr) != [] ==>
      r == TrimNewlines(stdout) + "\n" + STDERR_HEADER + TrimNewlines(stderr)
  {
    var out, err := TrimNewlines(stdout), TrimNewlines(stderr);
    if out == [] && err == [] then NO_OUTPUT
    else if err == [] then out
    else if out == [] then STDERR_HEADER + err
    else
      var r := out + "\n" + STDERR_HEADER + err;
      assert r[..|out|] == out;
      assert r[|r| - |err|..] == err;
      r
  }

  /** Trailing newlines of either stream make no difference. */
  lemma {:induction false} TrimNewlinesAbsorbs(s: string)
    ensures TrimNewlines(s + "\n") == TrimNewlines(s)
  {
    assert (s + "\n")[..|s|] == s;
  }

  lemma TrailingNewlinesIgnored(stdout: string, stderr: string)
    ensures FormatConsoleOutput(stdout + "\n", stderr) == FormatConsoleOutput(stdout, stderr)
    ensures FormatConsoleOutput(stdout, stderr + "\n") == FormatConsoleOutput(stdout, stderr)
  {
    TrimNewlinesAbsorbs(stdout);
    TrimNewlinesAbsorbs(stderr);
  }

  /** Trimming newlines twice is the same as once. */
  lemma TrimNewlinesIdempotent(s: string)
    ensures TrimNewlines(TrimNewlines(s)) == TrimNewlines(s)
  {
  }
}
