/** Canonical archive paths: relative, with non-empty components and no `.` or `..`. */
module ArchivePaths {
  import opened Outcome
  import opened ByteStrings

  const MAX_ENCODED_NAME_BYTES: nat := 4096

  const SLASH: Byte := 47
  const DOT: Byte := 46
  const BACKSLASH: Byte := 92

  /** "TRAILER!!!", the name of the record that ends an archive. */
  const TRAILER_NAME: Bytes := [84, 82, 65, 73, 76, 69, 82, 33, 33, 33]

  datatype PathError =
    | EmptyPath
    | AbsolutePath
    | EmptyComponent
    | CurrentDirectoryComponent
    | ParentDirectoryComponent
    | NulByte
    | Backslash
    | PathTooLong
    | ReservedTrailerName

  /** `bytes[i..j]` is delimited by separators or the ends of the path. */
  predicate IsComponent(path: Bytes, i: nat, j: nat) {
    && i <= j <= |path|
    && (i == 0 || path[i - 1] == SLASH) && (j == |path| || path[j] == SLASH)
    && SLASH !in path[i..j]
  }

  predicate GoodComponent(c: Bytes) { c != [] && c != [DOT] && c != [DOT, DOT] }

  /** The names an archive admits. */
  predicate ValidPath(path: Bytes) {
    && 0 < |path| < MAX_ENCODED_NAME_BYTES && path != TRAILER_NAME
    && 0 !in path && BACKSLASH !in path
    && forall i, j | 0 <= i <= j <= |path| && IsComponent(path, i, j) :: GoodComponent(path[i..j])
  }

  /** A component of the path which is `c`. */
  ghost predicate HasComponent(path: Bytes, c: Bytes) {
    exists i: nat, j: nat :: IsComponent(path, i, j) && path[i..j] == c
  }

  ghost predicate Explains(path: Bytes, error: PathError) {
    match error
    case EmptyPath => path == []
    case AbsolutePath => path != [] && path[0] == SLASH
    case EmptyComponent => HasComponent(path, [])
    case CurrentDirectoryComponent => HasComponent(path, [DOT])
    case ParentDirectoryComponent => HasComponent(path, [DOT, DOT])
    case NulByte => 0 in path
    case Backslash => BACKSLASH in path
    case PathTooLong => |path| >= MAX_ENCODED_NAME_BYTES
    case ReservedTrailerName => path == TRAILER_NAME
  }

  /** An explained path is not admitted. */
  lemma ExplainedIsInvalid(path: Bytes, error: PathError)
    requires Explains(path, error)
    ensures !ValidPath(path)
  {
    if error.AbsolutePath? {
      assert IsComponent(path, 0, 0) && path[0..0] == [];
    }
  }

  /** `validate_component`. */
  function ValidateComponent(c: Bytes): (r: Option<PathError>)
    ensures r.None? <==> GoodComponent(c)
    ensures r.Some? ==> (c == [] && r.value == EmptyComponent) || (c == [DOT] && r.value == CurrentDirectoryComponent)
                        || (c == [DOT, DOT] && r.value == ParentDirectoryComponent)
  {
    if c == [] then Some(EmptyComponent)
    else if c == [DOT] then Some(CurrentDirectoryComponent)
    else if c == [DOT, DOT] then Some(ParentDirectoryComponent)
    else None
  }

  lemma BadComponent(path: Bytes, i: nat, j: nat)
    requires IsComponent(path, i, j) && ValidateComponent(path[i..j]).Some?
    ensures Explains(path, ValidateComponent(path[i..j]).value)
  {
  }

  /** Components that end before position `n` are good. */
  ghost predicate GoodBefore(path: Bytes, n: nat) {
    forall i, j :: 0 <= i <= j < n && IsComponent(path, i, j) ==> GoodComponent(path[i..j])
  }

  /** `validate_archive_path`: accepts exactly the admitted names. */
  method ValidateArchivePath(path: Bytes) returns (r: Option<PathError>)
    ensures r.None? <==> ValidPath(path)
    ensures r.Some? ==> Explains(path, r.value)
  {
    if path == [] {
      return Some(EmptyPath);
    }
    if |path| >= MAX_ENCODED_NAME_BYTES {
      return Some(PathTooLong);
    }
    if path == TRAILER_NAME {
      return Some(ReservedTrailerName);
    }
    if path[0] == SLASH {
      ExplainedIsInvalid(path, AbsolutePath);
      return Some(AbsolutePath);
    }
    var start := 0;
    for index := 0 to |path|
      invariant start <= index
      invariant 0 !in path[..index] && BACKSLASH !in path[..index]
      invariant (start == 0 || path[start - 1] == SLASH) && SLASH !in path[start..index]
      invariant GoodBefore(path, index)
    {
      var byte := path[index];
      if byte == 0 {
        return Some(NulByte);
      }
      if byte == BACKSLASH {
        return Some(Backslash);
      }
      if byte == SLASH {
        var bad := ValidateComponent(path[start..index]);
        if bad.Some? {
          BadComponent(path, start, index);
          ExplainedIsInvalid(path, bad.value);
          return bad;
        }
      }
      GoodNext(path, start, index);
      if byte == SLASH {
        start := index + 1;
      }
    }
    r := ValidateComponent(path[start..]);
    assert path[start..] == path[start..|path|];
    if r.Some? {
      BadComponent(path, start, |path|);
      ExplainedIsInvalid(path, r.value);
    } else {
      LastComponent(path, start);
    }
  }

  /** A component ending at `index` starts where the current one does. */
  lemma GoodNext(path: Bytes, start: nat, index: nat)
    requires start <= index < |path| && SLASH !in path[start..index] && (start == 0 || path[start - 1] == SLASH)
    requires GoodBefore(path, index)
    requires path[index] == SLASH ==> GoodComponent(path[start..index])
    ensures GoodBefore(path, index + 1)
  {
    forall i, j | 0 <= i <= j < index + 1 && IsComponent(path, i, j) ensures GoodComponent(path[i..j]) {
      if j == index {
        SameStart(path, start, i, index);
      }
    }
  }

  lemma NoSlash(path: Bytes, i: nat, end: nat)
    requires i <= end <= |path| && SLASH !in path[i..end]
    ensures forall j :: i <= j < end ==> path[j] != SLASH
  {
    forall j | i <= j < end ensures path[j] != SLASH {
      assert path[i..end][j - i] == path[j];
    }
  }

  lemma SameStart(path: Bytes, start: nat, i: nat, end: nat)
    requires start <= end <= |path| && SLASH !in path[start..end] && (start == 0 || path[start - 1] == SLASH)
    requires IsComponent(path, i, end)
    ensures i == start
  {
    NoSlash(path, i, end);
    NoSlash(path, start, end);
  }

  lemma LastComponent(path: Bytes, start: nat)
    requires 0 < |path| < MAX_ENCODED_NAME_BYTES && path != TRAILER_NAME && 0 !in path && BACKSLASH !in path
    requires start <= |path| && SLASH !in path[start..|path|] && (start == 0 || path[start - 1] == SLASH)
    requires GoodBefore(path, |path|) && GoodComponent(path[start..|path|])
    ensures ValidPath(path)
  {
    forall i, j | 0 <= i <= j <= |path| && IsComponent(path, i, j) ensures GoodComponent(path[i..j]) {
      if j == |path| {
        SameStart(path, start, i, |path|);
      }
    }
  }
}
