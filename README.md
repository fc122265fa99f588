# vcstool CompareOutput: detached-HEAD normalisation

This project models `CompareOutput`, the record that vcstool's `compare`
command fills in for each repository (local and remote version, tag, hashes,
remote name, ahead/behind counts and four working-copy flags). It also models
that record's one operation, `fix_detached_head`. When Git reports a detached
working copy, the local version reads `(HEAD detached at <rev>)`. The
operation rewrites the local version to the literal `HEAD detached` and
stores `<rev>` as the local hash.

The files:

- `wrappers.dfy` has the `Option` type.
- `detached_head.dfy` (module `DetachedHead`) models
  `re.match(r"\(HEAD detached at (\S+)\)", s)`.
  - `DetachedMatch` works like the regular-expression engine. `SpanNonSpace`
    is the greedy `\S+`. `Backtrack` gives characters back until a `)`
    follows.
  - `Captures` and `LongestCapture` define a match declaratively:
    - `s` starts with the prefix;
    - then comes a non-empty, whitespace-free group;
    - then a `)`;
    - the chosen group is the longest such one.
  - `DetachedMatchIsLongestCapture` proves that the two agree in both
    directions.
  - `\s` is the set of characters for which Python's `str.isspace()` holds.
- `outputs.dfy` (module `Outputs`) has the class `CompareOutput`. It has the
  twelve fields of the dataclass. `FixDetachedHead` is a `modifies` method
  that may write only `localVersion` and `localHash`. Its new state is given
  by the pure function `FixedDetachedHead` on a `Fields` snapshot of the
  record.

## Model

| member | source | states |
|---|---|---|
| `DetachedHead.DetachedMatch` | vcstool/outputs.py:25 | when the anchored pattern matches, the group it yields is a capture: the string begins with `(HEAD detached at `, and the group is non-empty, has no whitespace and is followed by `)` |
| `DetachedHead.SpanNonSpace` | vcstool/outputs.py:25 | greedy `\S+` first consumes the whole leading whitespace-free run: that prefix has no whitespace, and the next character is whitespace or the end of the string |
| `DetachedHead.Backtrack` | vcstool/outputs.py:25 | backtracking over `\S+` then `\)` picks the largest group length in 1..n that `)` follows; no longer length qualifies; None means no length does |
| `DetachedHead.DetachedMatchIsLongestCapture` | vcstool/outputs.py:25 | the matcher returns `g` exactly when `g` is the longest capture, and returns None exactly when there is no capture at all |
| `DetachedHead.LeadingTextBlocks` | vcstool/outputs.py:25 | `re.match` is anchored at the start: non-empty leading text shorter than the prefix prevents a match even when a whole `(HEAD detached at X)` follows it (in general, any match implies the string begins with the prefix, by `DetachedMatch`'s ensures) |
| `DetachedHead.TrailingTextIgnored` | vcstool/outputs.py:25 | text after the closing `)` is ignored once the whitespace-free run ends there; the group is the whole run up to that `)`, including any `)` inside it |
| `DetachedHead.DetachedNeverMatches` | vcstool/outputs.py:25-27 | the replacement text `HEAD detached` does not match the pattern |
| `DetachedHead.MatchExamples` | vcstool/outputs.py:25-28 | `(HEAD detached at a1b2c3d)` yields `a1b2c3d`; `(HEAD detached at abc) x` yields `abc`; `(HEAD detached at a)b)` yields `a)b`, because the group runs to the last `)` of the run |
| `DetachedHead.RejectionExamples` | vcstool/outputs.py:25-26 | an empty revision, a missing `)` and the wording `detached from` do not match |
| `Outputs.FixedDetachedHead` | vcstool/outputs.py:22-28 | normalising a record changes at most the local version and local hash, and leaves a local version that no longer matches the pattern |
| `Outputs.FixedDetachedHeadSpec` | vcstool/outputs.py:25-28 | given a capture, the version becomes `HEAD detached` and the hash becomes the longest capture; with no capture, every field keeps its value |
| `Outputs.FixedHashShape` | vcstool/outputs.py:25-28 | when the local version matches the pattern, the normalised version is `HEAD detached`, and the new hash is non-empty, has no whitespace and appeared between the prefix and a `)` in the old version |
| `Outputs.FixedDetachedHeadIdempotent` | vcstool/outputs.py:22-28 | normalising twice gives the same record as normalising once |
| `Outputs.CompareOutput.constructor` | vcstool/outputs.py:5-20 | the dataclass constructor sets each of the twelve fields to its argument |
| `Outputs.CompareOutput.FixDetachedHead` | vcstool/outputs.py:22-28 | the method's new state is `FixedDetachedHead` of its old state: on a match, the local version becomes `HEAD detached` and the local hash the group; otherwise nothing changes; it may write only those two fields |
| `Outputs.SecondFixIsNoOp` | vcstool/outputs.py:22-28 | calling `fix_detached_head` twice on one object leaves the same state as calling it once |

## Left out

- `vcstool/commands/compare.py` is not part of this model. It only parses
  arguments, loads the repository file and runs jobs. It then prints a
  third-party `PrettyTable` with fixed columns. Its loop over the job results
  computes `path` and `output` and never uses them, so it has no behaviour to
  state.
- Status classification, significance, abbreviation, column hiding and
  legends are not modelled. None of them exists in the source files covered
  here.
- `ahead` and `behind` are plain integers with no non-negativity invariant.
  The dataclass declares them as `int` and enforces nothing.
- Only the one regular expression at `vcstool/outputs.py:25` is modelled, not
  a general regular-expression engine. `\s` is a fixed character set, that of
  Python's `str.isspace()` as of Unicode 6.3 and later.
