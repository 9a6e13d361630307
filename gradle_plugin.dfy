/** The `gradle.properties` half of the config plugin: raise the Gradle
    daemon's heap and metaspace to 4096 MB in `org.gradle.jvmargs`. The two
    regular expressions it uses, `/-Xmx\d+[mg]/` and
    `/-XX:MaxMetaspaceSize=\d+[mg]/` without the global flag, are modelled
    as "replace the leftmost match". */
module GradlePlugin {
  import opened Common

  datatype PropertiesItem = Comment(value: string) | Empty | Property(key: string, value: string)

  const JvmArgsKey: string := "org.gradle.jvmargs"
  const HeapFlag: string := "-Xmx"
  const MetaspaceFlag: string := "-XX:MaxMetaspaceSize="
  const MetaspaceName: string := "MaxMetaspaceSize"
  const TargetSize: string := "4096m"
  /** `-Xmx4096m -XX:MaxMetaspaceSize=4096m`. */
  const DesiredJvmArgs: string := HeapFlag + TargetSize + " " + MetaspaceFlag + TargetSize

  predicate IsDigit(c: char)
  {
    '0' <= c <= '9'
  }

  /** `sub` occurs in `s` (`String.prototype.includes`). */
  predicate Includes(s: string, sub: string)
  {
    exists i: nat :: i <= |s| && OccursAt(s, sub, i)
  }

  predicate OccursAt(s: string, sub: string, i: nat)
  {
    i + |sub| <= |s| && s[i..i + |sub|] == sub
  }

  /** The number of consecutive digits in `s` from position `j`. */
  function DigitRun(s: string, j: nat): (n: nat)
    requires j <= |s|
    ensures j + n <= |s|
    ensures forall k :: j <= k < j + n ==> IsDigit(s[k])
    ensures j + n == |s| || !IsDigit(s[j + n])
    decreases |s| - j
  {
    if j < |s| && IsDigit(s[j]) then 1 + DigitRun(s, j + 1) else 0
  }

  /** `flag\d+[mg]` matches `s` at `i`. A shorter digit run never helps: the
      character after it is a digit, not `m` or `g`. */
  predicate MatchAt(s: string, flag: string, i: nat)
  {
    var j := i + |flag|;
    && j <= |s|
    && s[i..j] == flag
    && DigitRun(s, j) >= 1
    && j + DigitRun(s, j) < |s|
    && s[j + DigitRun(s, j)] in {'m', 'g'}
  }

  /** The length of the match at `i`. */
  function MatchLength(s: string, flag: string, i: nat): (n: nat)
    requires MatchAt(s, flag, i)
    ensures i + n <= |s|
  {
    |flag| + DigitRun(s, i + |flag|) + 1
  }

  /** The leftmost match at or after `from`. */
  function FirstMatch(s: string, flag: string, from: nat): (k: Option<nat>)
    requires from <= |s|
    ensures k.Some? ==> from <= k.value <= |s| && MatchAt(s, flag, k.value)
    ensures k.Some? ==> forall j :: from <= j < k.value ==> !MatchAt(s, flag, j)
    ensures k.None? ==> forall j :: from <= j <= |s| ==> !MatchAt(s, flag, j)
    decreases |s| - from
  {
    if MatchAt(s, flag, from) then Some(from)
    else if from == |s| then None
    else FirstMatch(s, flag, from + 1)
  }

  /** `s.replace(/flag\d+[mg]/, flag + "4096m")`. */
  function ReplaceFirst(s: string, flag: string): string
  {
    match FirstMatch(s, flag, 0)
    case None => s
    case Some(i) => s[..i] + flag + TargetSize + s[i + MatchLength(s, flag, i)..]
  }

  /** The new `org.gradle.jvmargs` value: when it mentions `-Xmx` or
      `MaxMetaspaceSize`, rewrite the first heap size and then the first
      metaspace size to 4096m; otherwise append the desired arguments after
      a space. */
  function UpdatedJvmArgs(value: string): string
  {
    if Includes(value, HeapFlag) || Includes(value, MetaspaceName) then
      ReplaceFirst(ReplaceFirst(value, HeapFlag), MetaspaceFlag)
    else value + " " + DesiredJvmArgs
  }

  /** The first `org.gradle.jvmargs` property (`Array.prototype.find`). */
  function FindJvmArgs(items: seq<PropertiesItem>): (k: Option<nat>)
    ensures k.Some? ==> k.value < |items| && items[k.value].Property? && items[k.value].key == JvmArgsKey
    ensures k.Some? ==> forall j :: 0 <= j < k.value ==> !(items[j].Property? && items[j].key == JvmArgsKey)
    ensures k.None? ==> forall j :: 0 <= j < |items| ==> !(items[j].Property? && items[j].key == JvmArgsKey)
  {
    if |items| == 0 then None
    else
      var earlier := FindJvmArgs(items[..|items| - 1]);
      var last := items[|items| - 1];
      if earlier.Some? then earlier
      else if last.Property? && last.key == JvmArgsKey then Some(|items| - 1)
      else None
  }

  /** The property list after `addGradleMemorySettings`: the first jvmargs
      property gets the updated value, or a new one is appended. */
  function PatchProperties(items: seq<PropertiesItem>): seq<PropertiesItem>
  {
    match FindJvmArgs(items)
    case Some(i) => items[i := Property(JvmArgsKey, UpdatedJvmArgs(items[i].value))]
    case None => items + [Property(JvmArgsKey, DesiredJvmArgs)]
  }

  /** Only the first jvmargs property changes, or one is appended; every
      other item keeps its place and content. */
  lemma PatchTouchesOnlyJvmArgs(items: seq<PropertiesItem>)
    ensures var result := PatchProperties(items);
            match FindJvmArgs(items)
            case Some(i) =>
              && |result| == |items|
              && (forall j :: 0 <= j < |items| && j != i ==> result[j] == items[j])
              && result[i] == Property(JvmArgsKey, UpdatedJvmArgs(items[i].value))
            case None =>
              && result[..|items|] == items
              && result[|items|..] == [Property(JvmArgsKey, DesiredJvmArgs)]
  {
  }

  /** A match starts with a `-`, and no other character of it is one. */
  lemma MatchDashes(s: string, flag: string, i: nat, k: nat)
    requires DashLed(flag)
    requires MatchAt(s, flag, i) && i < k < i + MatchLength(s, flag, i)
    ensures s[k] != '-'
  {
    var j := i + |flag|;
    if k < j {
      assert s[i..j][k - i] == s[k];
    }
  }

  /** Whether a match at `j` exists depends only on the characters it spans. */
  lemma MatchLocal(s: string, t: string, flag: string, j: nat)
    requires MatchAt(s, flag, j)
    requires j + MatchLength(s, flag, j) <= |t|
    requires t[j..j + MatchLength(s, flag, j)] == s[j..j + MatchLength(s, flag, j)]
    ensures MatchAt(t, flag, j) && MatchLength(t, flag, j) == MatchLength(s, flag, j)
  {
    var a := j + |flag|;
    var d := DigitRun(s, a);
    var e := j + MatchLength(s, flag, j);
    forall k | j <= k < e
      ensures t[k] == s[k]
    {
      assert t[j..e][k - j] == t[k] && s[j..e][k - j] == s[k];
    }
    assert t[j..a] == s[j..a];
    DigitRunLocal(s, t, a, d);
  }

  lemma {:induction false} DigitRunLocal(s: string, t: string, a: nat, d: nat)
    requires a <= |s| && DigitRun(s, a) == d && a + d < |s| && a + d < |t|
    requires forall k :: a <= k <= a + d ==> t[k] == s[k]
    ensures DigitRun(t, a) == d
    decreases d
  {
    if d > 0 {
      DigitRunLocal(s, t, a + 1, d - 1);
    }
  }

  /** The flag followed by 4096m is itself a match, of exactly that length. */
  lemma TargetMatches(t: string, flag: string, i: nat)
    requires i + |flag| + |TargetSize| <= |t|
    requires t[i..i + |flag| + |TargetSize|] == flag + TargetSize
    ensures MatchAt(t, flag, i) && MatchLength(t, flag, i) == |flag| + |TargetSize|
  {
    var j := i + |flag|;
    var w := t[i..j + |TargetSize|];
    assert t[i..j] == w[..|flag|];
    assert t[j..j + |TargetSize|] == w[|flag|..];
    TargetDigits(t, j);
  }

  /** `4096m` is a run of four digits and then `m`. */
  lemma TargetDigits(t: string, j: nat)
    requires j + |TargetSize| <= |t| && t[j..j + |TargetSize|] == TargetSize
    ensures DigitRun(t, j) == 4 && t[j + 4] == 'm'
  {
    var w := t[j..j + 5];
    assert t[j] == w[0] == '4' && t[j + 1] == w[1] == '0' && t[j + 2] == w[2] == '9';
    assert t[j + 3] == w[3] == '6' && t[j + 4] == w[4] == 'm';
    assert DigitRun(t, j + 4) == 0;
    assert DigitRun(t, j + 3) == 1;
    assert DigitRun(t, j + 2) == 2;
    assert DigitRun(t, j + 1) == 3;
  }

  /** A flag that starts with its only `-`, as both flags do. */
  predicate DashLed(flag: string)
  {
    |flag| >= 1 && flag[0] == '-' && forall m :: 1 <= m < |flag| ==> flag[m] != '-'
  }

  /** Putting a `-` at `i` after an unchanged prefix creates no match before
      `i`: one would have to span the `-`, or lie in the prefix. */
  lemma NoMatchBeforeDash(s: string, t: string, flag: string, i: nat, j: nat)
    requires DashLed(flag)
    requires i < |t| && i <= |s| && t[..i] == s[..i] && t[i] == '-'
    requires j < i && !MatchAt(s, flag, j)
    ensures !MatchAt(t, flag, j)
  {
    if MatchAt(t, flag, j) {
      var e := j + MatchLength(t, flag, j);
      if e <= i {
        assert t[j..e] == t[..i][j..e] == s[..i][j..e] == s[j..e];
        MatchLocal(t, s, flag, j);
      } else {
        MatchDashes(t, flag, j, i);
      }
    }
  }

  /** A string whose leftmost match already reads flag + 4096m is left as it is. */
  lemma ReplaceFirstFixed(t: string, flag: string, i: nat)
    requires i + |flag| + |TargetSize| <= |t|
    requires t[i..i + |flag| + |TargetSize|] == flag + TargetSize
    requires forall j :: 0 <= j < i ==> !MatchAt(t, flag, j)
    ensures ReplaceFirst(t, flag) == t
  {
    TargetMatches(t, flag, i);
    FirstMatchAt(t, flag, i);
    var e := i + |flag| + |TargetSize|;
    assert ReplaceFirst(t, flag) == t[..i] + flag + TargetSize + t[e..];
    SpliceBack(t, i, e, flag, TargetSize);
  }

  /** Cutting out a slice and putting the same text back changes nothing. */
  lemma SpliceBack(t: string, i: nat, e: nat, a: string, b: string)
    requires i <= e <= |t| && t[i..e] == a + b
    ensures t[..i] + a + b + t[e..] == t
  {
    var u := t[..i] + a + b + t[e..];
    assert |u| == |t|;
    forall k | 0 <= k < |t|
      ensures u[k] == t[k]
    {
      if k < i {
      } else if k < e {
        assert t[k] == t[i..e][k - i];
      }
    }
  }

  /** The leftmost match is the one before which there is none. */
  lemma FirstMatchAt(t: string, flag: string, i: nat)
    requires i <= |t| && MatchAt(t, flag, i)
    requires forall j :: 0 <= j < i ==> !MatchAt(t, flag, j)
    ensures FirstMatch(t, flag, 0) == Some(i)
  {
    var k := FirstMatch(t, flag, 0);
    assert k.Some?;
    assert !(k.value < i);
  }

  /** `flag` is settled in `w` when it never matches there (`p` is None), or
      when its leftmost match, at `p`, already reads flag + 4096m. */
  predicate SettledAt(w: string, flag: string, p: Option<nat>)
  {
    match p
    case None => forall j :: 0 <= j <= |w| ==> !MatchAt(w, flag, j)
    case Some(q) =>
      && q + |flag| + |TargetSize| <= |w|
      && w[q..q + |flag| + |TargetSize|] == flag + TargetSize
      && forall j :: 0 <= j < q ==> !MatchAt(w, flag, j)
  }

  /** A settled flag is left alone by its replacement. */
  lemma SettledFixed(w: string, flag: string, p: Option<nat>)
    requires SettledAt(w, flag, p)
    ensures ReplaceFirst(w, flag) == w
  {
    if p.Some? {
      ReplaceFirstFixed(w, flag, p.value);
    } else {
      assert FirstMatch(w, flag, 0).None?;
    }
  }

  /** The replacement settles its flag where the leftmost match was: the
      new text is a match, and no match can start before it. */
  lemma ReplaceSettles(s: string, flag: string)
    requires DashLed(flag)
    ensures SettledAt(ReplaceFirst(s, flag), flag, FirstMatch(s, flag, 0))
  {
    var k := FirstMatch(s, flag, 0);
    if k.Some? {
      var i := k.value;
      var e := i + MatchLength(s, flag, i);
      var t := ReplaceFirst(s, flag);
      assert t == s[..i] + flag + TargetSize + s[e..];
      SpliceShape(s[..i], flag, TargetSize, s[e..]);
      forall j | 0 <= j < i
        ensures !MatchAt(t, flag, j)
      {
        NoMatchBeforeDash(s, t, flag, i, j);
      }
    }
  }

  /** Replacing the first match by flag + 4096m is idempotent. */
  lemma ReplaceFirstIdempotent(s: string, flag: string)
    requires DashLed(flag)
    ensures ReplaceFirst(ReplaceFirst(s, flag), flag) == ReplaceFirst(s, flag)
  {
    ReplaceSettles(s, flag);
    SettledFixed(ReplaceFirst(s, flag), flag, FirstMatch(s, flag, 0));
  }

  /** Where the pieces of `a + f + g + b` sit. */
  lemma SpliceShape(a: string, f: string, g: string, b: string)
    ensures (a + f + g + b)[..|a|] == a
    ensures (a + f + g + b)[|a|..|a| + |f| + |g|] == f + g
    ensures |f| > 0 ==> (a + f + g + b)[|a|] == f[0]
  {
  }

  /** Each of the two replacements, run twice, gives what it gives once:
      both flags start with their only `-`. */
  lemma FlagReplacementsIdempotent(s: string)
    ensures ReplaceFirst(ReplaceFirst(s, HeapFlag), HeapFlag) == ReplaceFirst(s, HeapFlag)
    ensures ReplaceFirst(ReplaceFirst(s, MetaspaceFlag), MetaspaceFlag) == ReplaceFirst(s, MetaspaceFlag)
  {
    ReplaceFirstIdempotent(s, HeapFlag);
    ReplaceFirstIdempotent(s, MetaspaceFlag);
  }

  /** A match at `j` puts the flag's characters at `j` onwards. */
  lemma MatchChar(s: string, flag: string, j: nat, m: nat)
    requires m < |flag|
    ensures MatchAt(s, flag, j) ==> j + m < |s| && s[j + m] == flag[m]
  {
    if MatchAt(s, flag, j) {
      assert s[j..j + |flag|][m] == s[j + m];
    }
  }

  /** A match in `v + " " + w` that starts inside `v` lies wholly inside `v`,
      since no flag holds a space. */
  lemma MatchInsidePrefix(v: string, w: string, flag: string, j: nat)
    requires forall m :: 0 <= m < |flag| ==> flag[m] != ' '
    requires j <= |v|
    ensures MatchAt(v + " " + w, flag, j) ==> OccursAt(v, flag, j)
  {
    var u := v + " " + w;
    if MatchAt(u, flag, j) {
      if |v| < j + |flag| {
        MatchChar(u, flag, j, |v| - j);
        assert false;
      }
      assert u[j..j + |flag|] == v[j..j + |flag|];
    }
  }

  /** An occurrence of the metaspace flag holds the metaspace name. */
  lemma MetaspaceNameInside(v: string, j: nat)
    ensures OccursAt(v, MetaspaceFlag, j) ==> OccursAt(v, MetaspaceName, j + 4)
  {
    if OccursAt(v, MetaspaceFlag, j) {
      assert MetaspaceFlag == "-XX:" + MetaspaceName + "=";
      assert MetaspaceFlag[4..4 + |MetaspaceName|] == MetaspaceName;
      var e := j + |MetaspaceFlag|;
      forall k | 0 <= k < |MetaspaceName|
        ensures v[j + 4 + k] == MetaspaceName[k]
      {
        assert v[j..e][4 + k] == v[j + 4 + k];
        assert MetaspaceFlag[4..4 + |MetaspaceName|][k] == MetaspaceFlag[4 + k];
      }
    }
  }

  /** Where the two arguments and their dashes sit in `DesiredJvmArgs`. */
  lemma DesiredShape()
    ensures |DesiredJvmArgs| == 36
    ensures DesiredJvmArgs[..9] == HeapFlag + TargetSize
    ensures DesiredJvmArgs[10..] == MetaspaceFlag + TargetSize
    ensures DesiredJvmArgs[2] == 'm'
    ensures forall k :: 1 <= k < 10 ==> DesiredJvmArgs[k] != '-'
  {
  }

  /** The characters of `w` keep their order after `v + " "`. */
  lemma SpliceSuffix(v: string, w: string, a: nat, b: nat)
    requires a <= b <= |w|
    ensures (v + " " + w)[|v| + 1 + a..|v| + 1 + b] == w[a..b]
    ensures a < b ==> (v + " " + w)[|v| + 1 + a] == w[a]
  {
  }

  /** The appended heap argument is already in the desired form. */
  lemma DesiredHeapFixed(v: string)
    requires !Includes(v, HeapFlag)
    ensures var u := v + " " + DesiredJvmArgs;
            ReplaceFirst(u, HeapFlag) == u
  {
    var u := v + " " + DesiredJvmArgs;
    var n := |v| + 1;
    DesiredShape();
    SpliceSuffix(v, DesiredJvmArgs, 0, 9);
    forall j | 0 <= j < n
      ensures !MatchAt(u, HeapFlag, j)
    {
      MatchInsidePrefix(v, DesiredJvmArgs, HeapFlag, j);
    }
    ReplaceFirstFixed(u, HeapFlag, n);
  }

  /** The appended metaspace argument is already in the desired form. */
  lemma DesiredMetaspaceFixed(v: string)
    requires !Includes(v, MetaspaceName)
    ensures var u := v + " " + DesiredJvmArgs;
            ReplaceFirst(u, MetaspaceFlag) == u
  {
    var u := v + " " + DesiredJvmArgs;
    var n := |v| + 1;
    var m := n + 10;
    DesiredShape();
    SpliceSuffix(v, DesiredJvmArgs, 10, 36);
    forall j | 0 <= j < m
      ensures !MatchAt(u, MetaspaceFlag, j)
    {
      NoMetaspaceBeforeDesired(v, j);
    }
    ReplaceFirstFixed(u, MetaspaceFlag, m);
  }

  /** In `v + " " + DesiredJvmArgs`, with no metaspace name in `v`, no
      metaspace match starts before the appended metaspace argument. */
  lemma NoMetaspaceBeforeDesired(v: string, j: nat)
    requires !Includes(v, MetaspaceName) && j < |v| + 11
    ensures !MatchAt(v + " " + DesiredJvmArgs, MetaspaceFlag, j)
  {
    var u := v + " " + DesiredJvmArgs;
    var n := |v| + 1;
    DesiredShape();
    if j < n {
      MatchInsidePrefix(v, DesiredJvmArgs, MetaspaceFlag, j);
      MetaspaceNameInside(v, j);
    } else if j == n {
      MatchChar(u, MetaspaceFlag, j, 2);
      SpliceSuffix(v, DesiredJvmArgs, 2, 3);
    } else {
      MatchChar(u, MetaspaceFlag, j, 0);
      SpliceSuffix(v, DesiredJvmArgs, j - n, j - n + 1);
    }
  }

  /** Patching a value that names neither flag a second time changes nothing. */
  lemma UpdatedJvmArgsAppendIdempotent(v: string)
    requires !Includes(v, HeapFlag) && !Includes(v, MetaspaceName)
    ensures UpdatedJvmArgs(v) == v + " " + DesiredJvmArgs
    ensures UpdatedJvmArgs(UpdatedJvmArgs(v)) == UpdatedJvmArgs(v)
  {
    var u := v + " " + DesiredJvmArgs;
    assert OccursAt(u, HeapFlag, |v| + 1) by {
      assert u[|v| + 1..][..|HeapFlag|] == HeapFlag;
    }
    DesiredHeapFixed(v);
    DesiredMetaspaceFixed(v);
  }

  /** The value the plugin writes into a new property is a fixed point. */
  lemma DesiredJvmArgsFixed()
    ensures UpdatedJvmArgs(DesiredJvmArgs) == DesiredJvmArgs
  {
    var d := DesiredJvmArgs;
    DesiredShape();
    assert OccursAt(d, HeapFlag, 0) by {
      assert d[..|HeapFlag|] == d[..9][..4];
    }
    DesiredHeapPart();
    DesiredMetaspacePart();
  }

  /** The heap argument of the desired value is already in the desired form. */
  lemma DesiredHeapPart()
    ensures ReplaceFirst(DesiredJvmArgs, HeapFlag) == DesiredJvmArgs
  {
    DesiredShape();
    assert DesiredJvmArgs[0..9] == HeapFlag + TargetSize;
    ReplaceFirstFixed(DesiredJvmArgs, HeapFlag, 0);
  }

  /** So is its metaspace argument: no match can start among the heap
      argument's characters, none of which is a `-` after the first. */
  lemma DesiredMetaspacePart()
    ensures ReplaceFirst(DesiredJvmArgs, MetaspaceFlag) == DesiredJvmArgs
  {
    var d := DesiredJvmArgs;
    DesiredShape();
    forall j | 0 <= j < 10
      ensures !MatchAt(d, MetaspaceFlag, j)
    {
      if j == 0 {
        MatchChar(d, MetaspaceFlag, j, 2);
      } else {
        MatchChar(d, MetaspaceFlag, j, 0);
      }
    }
    assert d[10..36] == MetaspaceFlag + TargetSize;
    ReplaceFirstFixed(d, MetaspaceFlag, 10);
  }

  /** The first jvmargs property is the one before which there is none. */
  lemma FindJvmArgsAt(items: seq<PropertiesItem>, i: nat)
    requires i < |items| && items[i].Property? && items[i].key == JvmArgsKey
    requires forall j :: 0 <= j < i ==> !(items[j].Property? && items[j].key == JvmArgsKey)
    ensures FindJvmArgs(items) == Some(i)
  {
    var k := FindJvmArgs(items);
    assert k.Some?;
    assert !(k.value < i);
  }

  /** After the plugin the property list has a jvmargs property, at the
      place of the first one or, when there was none, at the end. */
  lemma PatchHasJvmArgs(items: seq<PropertiesItem>)
    ensures var result := PatchProperties(items);
            FindJvmArgs(result) == Some(if FindJvmArgs(items).Some? then FindJvmArgs(items).value else |items|)
  {
    var result := PatchProperties(items);
    PatchTouchesOnlyJvmArgs(items);
    if FindJvmArgs(items).Some? {
      var i := FindJvmArgs(items).value;
      FindJvmArgsAt(result, i);
    } else {
      forall j | 0 <= j < |items|
        ensures result[j] == items[j]
      {
        assert result[..|items|][j] == result[j];
      }
      assert result[|items|] == result[|items|..][0];
      FindJvmArgsAt(result, |items|);
    }
  }

  /** Digit runs in equal suffixes are equal. */
  lemma {:induction false} DigitRunShift(s: string, t: string, a: nat, b: nat, k: nat)
    requires a + k <= |s| && b <= |t| && s[a..] == t[b..]
    ensures DigitRun(s, a + k) == DigitRun(t, b + k)
    decreases |s| - (a + k)
  {
    if a + k < |s| {
      assert s[a + k] == s[a..][k] == t[b..][k] == t[b + k];
      DigitRunShift(s, t, a, b, k + 1);
    }
  }

  /** A match inside a suffix is a match wherever that suffix is put. */
  lemma MatchShift(s: string, t: string, flag: string, a: nat, b: nat, k: nat)
    requires a + k <= |s| && b <= |t| && s[a..] == t[b..]
    ensures MatchAt(s, flag, a + k) ==> MatchAt(t, flag, b + k)
  {
    if MatchAt(s, flag, a + k) {
      var j := k + |flag|;
      SuffixSlice(s, t, a, b, k, j);
      DigitRunShift(s, t, a, b, j);
      var d := DigitRun(s, a + j);
      SuffixSlice(s, t, a, b, j + d, j + d + 1);
      assert s[a + j + d] == s[a + j + d..a + j + d + 1][0];
      assert t[b + j + d] == t[b + j + d..b + j + d + 1][0];
    }
  }

  /** Equal suffixes have equal slices at the same offsets. */
  lemma SuffixSlice(s: string, t: string, a: nat, b: nat, k: nat, j: nat)
    requires a <= |s| && b <= |t| && s[a..] == t[b..] && k <= j <= |s| - a
    ensures s[a + k..a + j] == t[b + k..b + j]
  {
    assert s[a + k..a + j] == s[a..][k..j];
    assert t[b + k..b + j] == t[b..][k..j];
  }

  /** Where the characters of the metaspace replacement sit. */
  lemma MetaspaceTargetShape()
    ensures |MetaspaceFlag + TargetSize| == 26
    ensures (MetaspaceFlag + TargetSize)[0] == '-' && (MetaspaceFlag + TargetSize)[2] == 'X'
    ensures forall k :: 1 <= k < 26 ==> (MetaspaceFlag + TargetSize)[k] != '-'
    ensures HeapFlag[2] == 'm'
  {
  }

  /** No heap match starts inside a metaspace replacement: at its `-` the
      third character is `X`, not `m`, and it has no other `-`. */
  lemma NoHeapInMetaspace(u: string, i: nat, j: nat)
    requires i + 26 <= |u| && u[i..i + 26] == MetaspaceFlag + TargetSize
    requires i <= j < i + 26
    ensures !MatchAt(u, HeapFlag, j)
  {
    MetaspaceTargetShape();
    assert u[j] == u[i..i + 26][j - i];
    if j == i {
      assert u[i + 2] == u[i..i + 26][2];
      MatchChar(u, HeapFlag, j, 2);
    } else {
      MatchChar(u, HeapFlag, j, 0);
    }
  }

  /** A metaspace match does not start inside a heap match: it would
      start with a `-` the heap match cannot hold there. */
  lemma MetaspaceNotInsideHeap(w: string, q: nat, i: nat)
    requires q + 9 <= |w| && w[q..q + 9] == HeapFlag + TargetSize
    ensures MatchAt(w, MetaspaceFlag, i) ==> !(q < i < q + 9)
  {
    if MatchAt(w, MetaspaceFlag, i) && q < i < q + 9 {
      TargetMatches(w, HeapFlag, q);
      MatchDashes(w, HeapFlag, q, i);
      MatchChar(w, MetaspaceFlag, i, 0);
      assert false;
    }
  }

  /** A heap match and a metaspace match never start at the same place:
      the third characters are `m` and `X`. */
  lemma HeapNotAtMetaspace(w: string, q: nat)
    requires q + 9 <= |w| && w[q..q + 9] == HeapFlag + TargetSize
    ensures !MatchAt(w, MetaspaceFlag, q)
  {
    assert w[q + 2] == w[q..q + 9][2] == 'm';
    MatchChar(w, MetaspaceFlag, q, 2);
  }

  /** A heap match does not start inside a metaspace match. */
  lemma HeapNotInsideMetaspace(w: string, q: nat, i: nat)
    requires q + 9 <= |w| && w[q..q + 9] == HeapFlag + TargetSize
    requires MatchAt(w, MetaspaceFlag, i)
    ensures !(i < q < i + MatchLength(w, MetaspaceFlag, i))
  {
    assert w[q] == w[q..q + 9][0] == '-';
    if i < q < i + MatchLength(w, MetaspaceFlag, i) {
      MatchDashes(w, MetaspaceFlag, i, q);
      assert false;
    }
  }

  /** A settled heap flag that starts before a metaspace match ends before
      it, and one cannot start inside it. */
  lemma HeapBesideMetaspace(w: string, q: nat, i: nat)
    requires q + 9 <= |w| && w[q..q + 9] == HeapFlag + TargetSize
    requires MatchAt(w, MetaspaceFlag, i)
    ensures q + 9 <= i || i + MatchLength(w, MetaspaceFlag, i) <= q
  {
    MetaspaceNotInsideHeap(w, q, i);
    HeapNotAtMetaspace(w, q);
    HeapNotInsideMetaspace(w, q, i);
  }

  /** Where the metaspace replacement puts its pieces. */
  lemma MetaspaceSplice(w: string, i: nat)
    requires FirstMatch(w, MetaspaceFlag, 0) == Some(i)
    ensures var e := i + MatchLength(w, MetaspaceFlag, i);
            var u := ReplaceFirst(w, MetaspaceFlag);
            && i + 26 <= |u|
            && u[..i] == w[..i]
            && u[i..i + 26] == MetaspaceFlag + TargetSize
            && u[i + 26..] == w[e..]
  {
    var e := i + MatchLength(w, MetaspaceFlag, i);
    var u := ReplaceFirst(w, MetaspaceFlag);
    MetaspaceTargetShape();
    assert u == w[..i] + MetaspaceFlag + TargetSize + w[e..];
    SpliceShape(w[..i], MetaspaceFlag, TargetSize, w[e..]);
  }

  /** Where a settled heap match lands after a splice at `i` that replaced
      `w[i..e]` by 26 characters. */
  function Moved(p: Option<nat>, i: nat, e: nat): Option<nat>
  {
    if p.None? then None
    else if p.value < i then p
    else if p.value < e then None
    else Some(p.value - e + i + 26)
  }

  /** In a string spliced from `w` at the metaspace match `[i, e)`, no heap
      match starts where `w` has none before it. */
  lemma NoHeapInSplice(w: string, u: string, i: nat, e: nat, j: nat)
    requires MetaspaceSpliced(w, u, i, e)
    requires j <= |u|
    requires j < i ==> !MatchAt(w, HeapFlag, j)
    requires j >= i + 26 ==> !MatchAt(w, HeapFlag, j - i - 26 + e)
    ensures !MatchAt(u, HeapFlag, j)
  {
    if j < i {
      MetaspaceTargetShape();
      assert u[i] == u[i..i + 26][0];
      NoMatchBeforeDash(w, u, HeapFlag, i, j);
    } else if j < i + 26 {
      NoHeapInMetaspace(u, i, j);
    } else {
      MatchShift(u, w, HeapFlag, i + 26, e, j - i - 26);
    }
  }

  /** The splice at the metaspace match `[i, e)` of `w` that gives `u`. */
  predicate MetaspaceSpliced(w: string, u: string, i: nat, e: nat)
  {
    && MatchAt(w, MetaspaceFlag, i) && e == i + MatchLength(w, MetaspaceFlag, i)
    && i + 26 <= |u| && u[..i] == w[..i] && u[i..i + 26] == MetaspaceFlag + TargetSize
    && u[i + 26..] == w[e..]
  }

  /** No heap match anywhere survives as none anywhere. */
  lemma NoHeapStaysNone(w: string, u: string, i: nat, e: nat)
    requires SettledAt(w, HeapFlag, None) && MetaspaceSpliced(w, u, i, e)
    ensures SettledAt(u, HeapFlag, None)
  {
    forall j | 0 <= j <= |u|
      ensures !MatchAt(u, HeapFlag, j)
    {
      NoHeapInSplice(w, u, i, e, j);
    }
  }

  /** A settled heap match before the splice stays where it is. */
  lemma HeapStaysBefore(w: string, u: string, q: nat, i: nat, e: nat)
    requires SettledAt(w, HeapFlag, Some(q)) && MetaspaceSpliced(w, u, i, e) && q + 9 <= i
    ensures SettledAt(u, HeapFlag, Some(q))
  {
    forall j | 0 <= j < q
      ensures !MatchAt(u, HeapFlag, j)
    {
      NoHeapInSplice(w, u, i, e, j);
    }
    assert u[q..q + 9] == u[..i][q..q + 9] == w[..i][q..q + 9] == w[q..q + 9];
  }

  /** A settled heap match after the splice moves with the text after it. */
  lemma HeapMovesAfter(w: string, u: string, q: nat, i: nat, e: nat)
    requires SettledAt(w, HeapFlag, Some(q)) && MetaspaceSpliced(w, u, i, e) && e <= q
    ensures SettledAt(u, HeapFlag, Some(q - e + i + 26))
  {
    var q' := q - e + i + 26;
    forall j | 0 <= j < q'
      ensures !MatchAt(u, HeapFlag, j)
    {
      NoHeapInSplice(w, u, i, e, j);
    }
    SuffixSlice(w, u, e, i + 26, q - e, q - e + 9);
  }

  /** The splice keeps a settled heap flag settled. */
  lemma HeapSettledInSplice(w: string, u: string, p: Option<nat>, i: nat, e: nat)
    requires SettledAt(w, HeapFlag, p) && MetaspaceSpliced(w, u, i, e)
    ensures SettledAt(u, HeapFlag, Moved(p, i, e))
  {
    if p.None? {
      NoHeapStaysNone(w, u, i, e);
    } else {
      HeapBesideMetaspace(w, p.value, i);
      if p.value < i {
        HeapStaysBefore(w, u, p.value, i, e);
      } else {
        HeapMovesAfter(w, u, p.value, i, e);
      }
    }
  }

  /** Replacing the metaspace size keeps the heap flag settled, so the heap
      replacement after it changes nothing. */
  lemma HeapSettledAfterMetaspace(w: string, p: Option<nat>, i: nat)
    requires SettledAt(w, HeapFlag, p) && FirstMatch(w, MetaspaceFlag, 0) == Some(i)
    ensures ReplaceFirst(ReplaceFirst(w, MetaspaceFlag), HeapFlag) == ReplaceFirst(w, MetaspaceFlag)
  {
    var u := ReplaceFirst(w, MetaspaceFlag);
    var e := i + MatchLength(w, MetaspaceFlag, i);
    MetaspaceSplice(w, i);
    assert MetaspaceSpliced(w, u, i, e);
    HeapSettledInSplice(w, u, p, i, e);
    SettledFixed(u, HeapFlag, Moved(p, i, e));
  }

  /** After the heap-then-metaspace rewrite the heap flag is settled. */
  lemma HeapFixedAfterRewrite(v: string)
    ensures var u := ReplaceFirst(ReplaceFirst(v, HeapFlag), MetaspaceFlag);
            ReplaceFirst(u, HeapFlag) == u
  {
    var w := ReplaceFirst(v, HeapFlag);
    ReplaceSettles(v, HeapFlag);
    var k := FirstMatch(w, MetaspaceFlag, 0);
    if k.Some? {
      HeapSettledAfterMetaspace(w, FirstMatch(v, HeapFlag, 0), k.value);
    } else {
      assert ReplaceFirst(w, MetaspaceFlag) == w;
      SettledFixed(w, HeapFlag, FirstMatch(v, HeapFlag, 0));
    }
  }

  /** The heap-then-metaspace rewrite, run twice, gives what it gives once. */
  lemma RewriteIdempotent(v: string)
    ensures var u := ReplaceFirst(ReplaceFirst(v, HeapFlag), MetaspaceFlag);
            ReplaceFirst(ReplaceFirst(u, HeapFlag), MetaspaceFlag) == u
  {
    var w := ReplaceFirst(v, HeapFlag);
    var u := ReplaceFirst(w, MetaspaceFlag);
    HeapFixedAfterRewrite(v);
    assert ReplaceFirst(u, HeapFlag) == u;
    ReplaceFirstIdempotent(w, MetaspaceFlag);
  }

  /** After a metaspace replacement the value names the metaspace flag. */
  lemma MetaspaceReplacedNamed(w: string, i: nat)
    requires FirstMatch(w, MetaspaceFlag, 0) == Some(i)
    ensures Includes(ReplaceFirst(w, MetaspaceFlag), MetaspaceName)
  {
    var u := ReplaceFirst(w, MetaspaceFlag);
    MetaspaceSplice(w, i);
    assert u[i..i + |MetaspaceFlag|] == u[i..i + 26][..|MetaspaceFlag|];
    assert OccursAt(u, MetaspaceFlag, i);
    MetaspaceNameInside(u, i);
    assert OccursAt(u, MetaspaceName, i + 4);
  }

  /** After a heap replacement the value names the heap flag. */
  lemma HeapReplacedNamed(v: string, q: nat)
    requires FirstMatch(v, HeapFlag, 0) == Some(q)
    ensures Includes(ReplaceFirst(v, HeapFlag), HeapFlag)
  {
    var w := ReplaceFirst(v, HeapFlag);
    ReplaceSettles(v, HeapFlag);
    assert w[q..q + |HeapFlag|] == w[q..q + 9][..|HeapFlag|];
    assert OccursAt(w, HeapFlag, q);
  }

  /** A rewritten value still names a flag, so patching it again rewrites
      rather than appends. */
  lemma RewriteKeepsFlag(v: string)
    ensures var u := ReplaceFirst(ReplaceFirst(v, HeapFlag), MetaspaceFlag);
            Includes(v, HeapFlag) || Includes(v, MetaspaceName) ==>
              Includes(u, HeapFlag) || Includes(u, MetaspaceName)
  {
    var w := ReplaceFirst(v, HeapFlag);
    var k := FirstMatch(w, MetaspaceFlag, 0);
    if k.Some? {
      MetaspaceReplacedNamed(w, k.value);
    } else {
      assert ReplaceFirst(w, MetaspaceFlag) == w;
      var h := FirstMatch(v, HeapFlag, 0);
      if h.Some? {
        HeapReplacedNamed(v, h.value);
      } else {
        assert w == v;
      }
    }
  }

  /** Patching a jvmargs value a second time changes nothing: the heap size
      stays settled through the metaspace rewrite, the metaspace rewrite is
      idempotent, and an appended value is a fixed point. */
  lemma UpdatedJvmArgsIdempotent(v: string)
    ensures UpdatedJvmArgs(UpdatedJvmArgs(v)) == UpdatedJvmArgs(v)
  {
    if Includes(v, HeapFlag) || Includes(v, MetaspaceName) {
      RewriteKeepsFlag(v);
      RewriteIdempotent(v);
    } else {
      UpdatedJvmArgsAppendIdempotent(v);
    }
  }

  /** Running the plugin twice gives what running it once gives. */
  lemma PatchIdempotent(items: seq<PropertiesItem>)
    ensures PatchProperties(PatchProperties(items)) == PatchProperties(items)
  {
    if FindJvmArgs(items).None? {
      PatchAppendIdempotent(items);
    } else {
      var i := FindJvmArgs(items).value;
      var once := PatchProperties(items);
      PatchHasJvmArgs(items);
      UpdatedJvmArgsIdempotent(items[i].value);
      assert once[i := Property(JvmArgsKey, UpdatedJvmArgs(once[i].value))] == once;
    }
  }

  /** A property list without jvmargs, patched twice, is patched once. */
  lemma PatchAppendIdempotent(items: seq<PropertiesItem>)
    requires FindJvmArgs(items).None?
    ensures PatchProperties(PatchProperties(items)) == PatchProperties(items)
  {
    var once := PatchProperties(items);
    PatchHasJvmArgs(items);
    DesiredJvmArgsFixed();
    assert once[|items|] == Property(JvmArgsKey, DesiredJvmArgs);
    assert once[|items| := Property(JvmArgsKey, UpdatedJvmArgs(DesiredJvmArgs))] == once;
  }

  /** `gradle.properties` as the plugin sees it. */
  class GradleProperties {
    var items: seq<PropertiesItem>

    constructor (items: seq<PropertiesItem>)
      ensures this.items == items
    {
      this.items := items;
    }

    /** `addGradleMemorySettings`. */
    method AddGradleMemorySettings()
      modifies this
      ensures items == PatchProperties(old(items))
    {
      var found := FindJvmArgs(items);
      if found.Some? {
        var i := found.value;
        var value := items[i].value;
        if Includes(value, HeapFlag) || Includes(value, MetaspaceName) {
          value := ReplaceFirst(ReplaceFirst(value, HeapFlag), MetaspaceFlag);
        } else {
          value := value + " " + DesiredJvmArgs;
        }
        items := items[i := Property(JvmArgsKey, value)];
      } else {
        items := items + [Property(JvmArgsKey, DesiredJvmArgs)];
      }
    }
  }
}
