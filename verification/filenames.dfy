/**
  Filename resolution shared, line for line, by all three variants:
  POSIX `os.path.splitext`, `str.strip()`, `str.lower()`, and the
  append-if-missing rules for the `.h5` input and `.root` output names.
 */
module Filenames {
  import opened Wrappers

  /** Index of the last `c` in `s`, or -1 (Python's `str.rfind`). */
  function LastIndexOf(s: string, c: char): (r: int)
    ensures -1 <= r < |s|
    ensures r >= 0 ==> s[r] == c
    ensures forall i :: r < i < |s| ==> s[i] != c
  {
    if |s| == 0 then -1
    else if s[|s| - 1] == c then |s| - 1
    else LastIndexOf(s[..|s| - 1], c)
  }

  /** The final path component of `p` holds a character other than `.`. */
  predicate Named(p: string) {
    exists i :: LastIndexOf(p, '/') < i < |p| && p[i] != '.'
  }

  /**
    POSIX `os.path.splitext`: the extension starts at the last `.` of the
    final path component, provided some non-dot character precedes it in
    that component (so `.bashrc` and `..` have no extension).
   */
  function SplitExt(p: string): (r: (string, string))
    ensures r.0 + r.1 == p
    ensures r.1 != [] ==>
      && r.1[0] == '.'
      && (forall i :: 1 <= i < |r.1| ==> r.1[i] != '.' && r.1[i] != '/')
      && Named(r.0)
  {
    var sep := LastIndexOf(p, '/');
    var dot := LastIndexOf(p, '.');
    if dot > sep && exists i :: sep + 1 <= i < dot && p[i] != '.' then
      var root := p[..dot];
      LastIndexOfPrefix(p, dot, '/');
      (root, p[dot..])
    else
      (p, [])
  }

  /** Cutting `s` before an occurrence of `c` beyond the last `d` keeps the last `d`. */
  lemma LastIndexOfPrefix(s: string, k: nat, d: char)
    requires LastIndexOf(s, d) < k <= |s|
    ensures LastIndexOf(s[..k], d) == LastIndexOf(s, d)
  {
  }

  /** Appending text free of `d` to `s` keeps its last `d`. */
  lemma {:induction false} LastIndexOfAppend(s: string, t: string, d: char)
    requires forall i :: 0 <= i < |t| ==> t[i] != d
    ensures LastIndexOf(s + t, d) == LastIndexOf(s, d)
  {
    LastIndexOfPrefix(s + t, |s|, d);
    assert (s + t)[..|s|] == s;
  }

  /** Splitting undoes appending an extension to a named root: the partner of `SplitExt`. */
  lemma SplitExtJoin(root: string, ext: string)
    requires Named(root)
    requires |ext| >= 1 && ext[0] == '.'
    requires forall i :: 1 <= i < |ext| ==> ext[i] != '.' && ext[i] != '/'
    ensures SplitExt(root + ext) == (root, ext)
  {
    var p := root + ext;
    var tail := ext[1..];
    assert p == (root + ['.']) + tail;
    LastIndexOfAppend(root + ['.'], tail, '.');
    LastIndexOfAppend(root + ['.'], tail, '/');
    LastIndexOfAppend(root, ['.'], '/');
    assert LastIndexOf(p, '.') == |root|;
    var sep := LastIndexOf(root, '/');
    assert LastIndexOf(p, '/') == sep;
    var i :| sep < i < |root| && root[i] != '.';
    assert p[i] == root[i];
    assert p[..|root|] == root;
    assert p[|root|..] == ext;
  }

  /** Python's `str.isspace` on one character. */
  predicate IsSpace(c: char) {
    var n := c as int;
    n == 32 || 9 <= n <= 13 || 28 <= n <= 31 || n == 0x85 || n == 0xA0 || n == 0x1680
    || 0x2000 <= n <= 0x200A || n == 0x2028 || n == 0x2029 || n == 0x202F || n == 0x205F
    || n == 0x3000
  }

  function StripStart(s: string): (k: nat)
    ensures k <= |s|
    ensures forall i :: 0 <= i < k ==> IsSpace(s[i])
    ensures k < |s| ==> !IsSpace(s[k])
  {
    if |s| == 0 || !IsSpace(s[0]) then 0 else 1 + StripStart(s[1..])
  }

  function StripEnd(s: string): (k: nat)
    ensures k <= |s|
    ensures forall i :: k <= i < |s| ==> IsSpace(s[i])
    ensures k > 0 ==> !IsSpace(s[k - 1])
  {
    if |s| == 0 || !IsSpace(s[|s| - 1]) then |s| else StripEnd(s[..|s| - 1])
  }

  /** Python's `str.strip()` with no argument. */
  function Strip(s: string): (r: string)
    ensures |r| == 0 || (!IsSpace(r[0]) && !IsSpace(r[|r| - 1]))
    ensures exists a, b ::
              && 0 <= a <= b <= |s| && r == s[a..b]
              && (forall i :: 0 <= i < a ==> IsSpace(s[i]))
              && (forall i :: b <= i < |s| ==> IsSpace(s[i]))
  {
    var a := StripStart(s);
    var t := s[a..];
    var b := StripEnd(t);
    assert t[..b] == s[a..a + b];
    t[..b]
  }

  /**
    `str.lower()` restricted to ASCII letters. No other character lowers
    into a letter of `.h5` or `.root`, so the comparisons below are exact.
   */
  function LowerChar(c: char): char {
    if 'A' <= c <= 'Z' then (c as int + 32) as char else c
  }

  function Lower(s: string): (r: string)
    ensures |r| == |s|
    ensures forall i :: 0 <= i < |s| ==> r[i] == LowerChar(s[i])
  {
    seq(|s|, i requires 0 <= i < |s| => LowerChar(s[i]))
  }

  /** The strings that lower to `.h5` are exactly `.h5` and `.H5`. */
  lemma LowerH5(s: string)
    ensures Lower(s) == ".h5" <==> s == ".h5" || s == ".H5"
  {
    if Lower(s) == ".h5" {
      assert LowerChar(s[0]) == '.' && LowerChar(s[1]) == 'h' && LowerChar(s[2]) == '5';
      assert s == [s[0], s[1], s[2]];
    }
  }

  /** The strings that lower to `.root` are the 16 spellings of `.root` in mixed case. */
  lemma LowerRoot(s: string)
    ensures Lower(s) == ".root" <==>
      && |s| == 5 && s[0] == '.'
      && s[1] in "rR" && s[2] in "oO" && s[3] in "oO" && s[4] in "tT"
  {
    if Lower(s) == ".root" {
      assert LowerChar(s[0]) == '.' && LowerChar(s[1]) == 'r' && LowerChar(s[4]) == 't';
      assert LowerChar(s[2]) == 'o' && LowerChar(s[3]) == 'o';
    }
    if |s| == 5 && s[0] == '.' && s[1] in "rR" && s[2] in "oO" && s[3] in "oO" && s[4] in "tT" {
      assert Lower(s) == [LowerChar(s[0]), LowerChar(s[1]), LowerChar(s[2]), LowerChar(s[3]), LowerChar(s[4])];
    }
  }

  /** `os.path.splitext(p)[1].strip().lower() == ext`. */
  predicate HasExt(p: string, ext: string) {
    Lower(Strip(SplitExt(p).1)) == ext
  }

  datatype Input = Input(read: string, base: string)

  /** `.h5` and `.root` are extensions `splitext` recognises, already stripped and lower-case. */
  lemma KnownExtensions()
    ensures Lower(Strip(".h5")) == ".h5" && Lower(Strip(".root")) == ".root"
  {
    StripPlain(".h5");
    StripPlain(".root");
  }

  /** Appending a recognised extension to a named path yields a path with that extension and that root. */
  lemma AppendExt(p: string, ext: string)
    requires Named(p) && ext in {".h5", ".root"}
    ensures HasExt(p + ext, ext) && SplitExt(p + ext).0 == p
  {
    KnownExtensions();
    SplitExtJoin(p, ext);
  }

  /**
    Resolution of `input_filename`: `.h5` is appended when missing (never
    substituted), and `base` is the input stripped of its `.h5` extension.
   */
  function ResolveInput(input: string): (r: Input)
    ensures r.read == input || r.read == input + ".h5"
    ensures HasExt(input, ".h5") ==> r.read == input
    ensures Named(input) ==> HasExt(r.read, ".h5") && SplitExt(r.read).0 == r.base
    ensures !Named(input) ==> r == Input(input + ".h5", input)
  {
    UnnamedHasNoExt(input, ".h5");
    if !HasExt(input, ".h5") then
      assert Named(input) ==> HasExt(input + ".h5", ".h5") && SplitExt(input + ".h5").0 == input by {
        if Named(input) { AppendExt(input, ".h5"); }
      }
      Input(input + ".h5", input)
    else
      Input(input, SplitExt(input).0)
  }

  /** A path whose final component is all dots has no extension, so no `ext` of at least one character. */
  lemma UnnamedHasNoExt(p: string, ext: string)
    requires |ext| > 0
    ensures !Named(p) ==> SplitExt(p).1 == [] && !HasExt(p, ext)
  {
    if !Named(p) {
      var sep := LastIndexOf(p, '/');
      assert forall i :: sep < i < |p| ==> p[i] == '.';
      assert SplitExt(p).1 == [];
      assert Strip([]) == [];
    }
  }

  /** A string with no surrounding space is its own strip. */
  lemma StripPlain(s: string)
    requires |s| > 0 && !IsSpace(s[0]) && !IsSpace(s[|s| - 1])
    ensures Strip(s) == s
  {
    assert s[0..] == s;
    assert s[..|s|] == s;
  }

  /**
    Resolution of `output_filename`: `base + ".root"` when none is given,
    otherwise `.root` appended when missing (never substituted).
   */
  function ResolveOutput(base: string, output: Option<string>): (r: string)
    ensures output.None? ==> r == base + ".root"
    ensures output.Some? ==> r == output.value || r == output.value + ".root"
    ensures output.Some? && HasExt(output.value, ".root") ==> r == output.value
    ensures (if output.Some? then Named(output.value) else Named(base)) ==> HasExt(r, ".root")
    ensures output.Some? && !Named(output.value) ==> r == output.value + ".root"
  {
    match output
    case None =>
      assert Named(base) ==> HasExt(base + ".root", ".root") by {
        if Named(base) { AppendExt(base, ".root"); }
      }
      base + ".root"
    case Some(o) =>
      UnnamedHasNoExt(o, ".root");
      if !HasExt(o, ".root") then
        assert Named(o) ==> HasExt(o + ".root", ".root") by {
          if Named(o) { AppendExt(o, ".root"); }
        }
        o + ".root"
      else
        o
  }

  /** Resolving an already resolved input changes nothing. */
  lemma ResolveInputIdempotent(input: string)
    requires Named(input)
    ensures ResolveInput(ResolveInput(input).read) == ResolveInput(input)
  {
  }

  /** Resolving an already resolved output name changes nothing. */
  lemma ResolveOutputIdempotent(base: string, output: string)
    requires Named(output)
    ensures ResolveOutput(base, Some(ResolveOutput(base, Some(output)))) == ResolveOutput(base, Some(output))
  {
  }

  /** A named input and the same input with `.h5` appended resolve alike. */
  lemma AppendH5ResolvesAlike(input: string)
    requires Named(input) && !HasExt(input, ".h5")
    ensures ResolveInput(input + ".h5") == ResolveInput(input)
  {
  }

  lemma PlainInput()
    ensures Named("input") && SplitExt("input") == ("input", [])
  {
    var p := "input";
    LastIndexOfAbsent(p, '/');
    LastIndexOfAbsent(p, '.');
    assert p[0] != '.';
  }

  /** A bare `input` gets `.h5` appended and is its own base. */
  lemma DefaultInput()
    ensures ResolveInput("input") == Input("input.h5", "input")
  {
    PlainInput();
    assert Strip([]) == [];
    assert !HasExt("input", ".h5");
    ConcatLiterals();
  }

  /** `input` and `input.h5` both read `input.h5`, and the default output is `input.root`. */
  lemma DefaultNames()
    ensures ResolveInput("input") == Input("input.h5", "input")
    ensures ResolveInput("input.h5") == Input("input.h5", "input")
    ensures ResolveOutput("input", None) == "input.root"
  {
    DefaultInput();
    PlainInput();
    AppendH5ResolvesAlike("input");
    ConcatLiterals();
  }

  lemma ConcatLiterals()
    ensures "input" + ".h5" == "input.h5" && "input" + ".root" == "input.root"
  {
  }

  lemma {:induction false} LastIndexOfAbsent(s: string, c: char)
    requires forall i :: 0 <= i < |s| ==> s[i] != c
    ensures LastIndexOf(s, c) == -1
  {
    if |s| > 0 {
      LastIndexOfAbsent(s[..|s| - 1], c);
    }
  }
}
