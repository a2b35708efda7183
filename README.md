# Blog queries and Terraform directory scan, modelled in Dafny

This project models the two pieces of logic in the website repository that compute
something:

- **The blog-post queries** of `astro/src/utils/post.ts`, in module `Posts` (`posts.dfy`):
  - `getCategories`, `getPosts(max)`, `getTags`, `getTagsWithCount`, `getPostByTag(tag)`
    and `filterPostsByCategory(category)`.
  - Each query reads the `blog` content collection. Here the collection is the parameter
    `posts`, in the order the content loader returns it.
  - A post is reduced to the front-matter fields the queries read: category, tags, draft
    flag and publication date.
- **The command helper and directory scan** of `scripts/utils.py`, in module `ScriptUtils`
  (`script_utils.dfy`):
  - `command` splits a command line into an argument vector.
  - `find_terraform_directories` turns the output of `find ./infra -name *.tf` into a sorted
    list of the directories that hold Terraform files, skipping every path that contains
    the text `.terraform` anywhere. Its model starts at the decoded output of the scan, `stdout`.

Shared building blocks:

- `collections.dfy` (module `Collections`):
  - `Array.prototype.filter`
  - the duplicate removal of a `Set`
  - the sort by a numeric key, largest first, that `getPosts` and
    `getTagsWithCount` use
- `strings.dfy` (module `Strings`):
  - the code-point order used for sorting strings, and the sort
  - Python whitespace
  - ASCII lower-casing
  - substring search

`scan_examples.dfy` (module `ScanExamples`) proves what the scan returns for one concrete directory tree.

Design points:

- Every query is a function of its inputs.
- The tag-counting `reduce` updates a dictionary step by step, so it is a method with a
  loop (`Posts.CountTags`).
- The loop's invariant, `Tally`, says what the dictionary holds after each tag. The two
  lemmas beside it prove that each step keeps it.
- `getTagsWithCount` is a method because it calls `CountTags`.
- A JavaScript `Set` keeps insertion order, so `getTags` (`Collections.Dedupe`) lists each
  tag once, in order of first occurrence, and sorts nothing.
- The sets of `getCategories` and `find_terraform_directories` are sorted afterwards. They
  are modelled as duplicate-free sequences that are then sorted. The lemma
  `Strings.AscendingUnique` shows that the result does not depend on the order in which
  the set is enumerated.
- `Array.prototype.sort` is stable, and so is the model's sort by date
  (`Collections.SortKeepsTies`). Posts with the same `pubDate` keep the collection's order,
  and that order decides which of them `slice(0, max)` keeps.
- An empty or all-whitespace scan returns `[""]`, not an empty list, as the code does.
  `"".split('\n')` is `['']` and `os.path.dirname('')` is `''`. The model follows the code
  (`ScriptUtils.EmptyScanGivesEmptyName`).

## Model

| member | source | states |
|---|---|---|
| Posts.Categories | astro/src/utils/post.ts:5 | one category per post, and a string is among them iff some post has it as its category |
| Posts.GetCategories | astro/src/utils/post.ts:3-8 | the result is strictly ascending, so each category appears once, and it holds exactly the categories of the posts |
| Posts.AllTags | astro/src/utils/post.ts:25 | the flattened tag lists hold exactly the tags carried by some post |
| Posts.GetTags | astro/src/utils/post.ts:17-21 | every tag carried by some post appears exactly once and nothing else appears; the result is a subsequence of the flattened tag lists, and of two tags the one whose first occurrence comes earlier comes first |
| Posts.Newest | astro/src/utils/post.ts:10-13 | the result is a permutation of the non-draft posts: each non-draft post keeps its multiplicity and drafts are absent. Its length is the number of non-drafts, and it is ordered latest first |
| Posts.SliceTo | astro/src/utils/post.ts:14 | `slice(0, end)` gives a prefix: the whole sequence when `end` is absent, `min(end, length)` elements for `end >= 0`, and all but the last `-end` elements for a negative `end` |
| Posts.NewestStable | astro/src/utils/post.ts:12-13 | non-draft posts with the same date keep the collection's order |
| Posts.NewestIs | astro/src/utils/post.ts:12-13 | a list of the non-draft posts ordered latest first that keeps same-date posts in the collection's order is `Newest(posts)`: the sorted result is unique |
| Posts.GetPosts | astro/src/utils/post.ts:10-15 | the result is a prefix of `Newest(posts)`, the unique stable latest-first order of the non-draft posts, so ties cut by `max` are kept in collection order. Its length is what `slice` gives for an absent, non-negative or negative `max`; it holds no drafts and is ordered latest first |
| Posts.GetPostByTag | astro/src/utils/post.ts:39-42 | a post is in the result iff it is not a draft and carries the tag; each post carrying the tag occurs as often as in `getPosts()`, any other not at all; the result keeps the latest-first order of `getPosts()` as a subsequence of it |
| Posts.FilterPostsByCategory | astro/src/utils/post.ts:44-47 | a post is in the result iff it is not a draft and its lower-cased category equals the argument; each matching post occurs as often as in `getPosts()`, any other not at all; the result keeps the latest-first order of `getPosts()` |
| Posts.UppercaseCategoryMatchesNothing | astro/src/utils/post.ts:46 | only the post's side is lower-cased, so an argument containing an upper-case ASCII letter selects no post |
| Posts.TallyBump | astro/src/utils/post.ts:29 | a tag already in the dictionary: incrementing its count keeps the invariant (keys distinct and in order of first occurrence, keys = tags seen, each count = occurrences so far, counts summing to the number of tags seen) |
| Posts.TallyNew | astro/src/utils/post.ts:29 | a tag not yet in the dictionary: storing it with count 1 as the last key keeps the same invariant |
| Posts.CountTags | astro/src/utils/post.ts:28-31 | after the `reduce`, the dictionary has exactly one key per distinct tag, in the order the tags first occur (the same list `Array.from(new Set(tags))` gives); each count is that tag's number of occurrences, and the counts add up to the number of tags |
| Posts.TallyKeys | astro/src/utils/post.ts:28-31 | keys that satisfy the invariant are exactly the list of distinct tags in order of first occurrence |
| Posts.Entries | astro/src/utils/post.ts:34-35 | `Object.entries` yields one entry per key |
| Posts.EntriesAt | astro/src/utils/post.ts:34-35 | entry `i` pairs the `i`-th key with its count |
| Posts.EntriesDescribe | astro/src/utils/post.ts:34-35 | the `{tag, count}` entries of the finished dictionary list every tag once, each with its number of occurrences |
| Posts.DescribesPermutation | astro/src/utils/post.ts:36 | reordering the entries keeps each tag listed once with its count |
| Posts.TotalCountSort | astro/src/utils/post.ts:36 | sorting by count keeps the sum of the counts |
| Posts.GetTagsWithCount | astro/src/utils/post.ts:23-37 | every tag of every post appears exactly once, with its number of occurrences across all posts; the counts add up to the number of tag occurrences, and the entries run from largest count to smallest |
| Collections.Filter | astro/src/utils/post.ts:12 | `filter` keeps exactly the elements that satisfy the predicate, with their multiplicity and in their original order |
| Collections.Dedupe | astro/src/utils/post.ts:19-20 | building a `Set` and reading it back gives each element once and nothing else, as a subsequence of the input, and of two elements the one that first occurs earlier comes first |
| Collections.FirstSeenOrderExtend | astro/src/utils/post.ts:19-20 | appending to the input keeps the first-occurrence order of the elements seen, and a new element appended to both comes after all of them |
| Collections.FirstSeenUnique | astro/src/utils/post.ts:19-20 | two duplicate-free lists with the same members, both in order of first occurrence in one input, are equal |
| Collections.SortByKeyDesc | astro/src/utils/post.ts:13 | sorting with the comparator `key(b) - key(a)` yields a permutation of the input, ordered by descending key |
| Collections.InsertKeepsTies | astro/src/utils/post.ts:13 | inserting an element puts it ahead of the elements with its key and keeps the order within every key |
| Collections.SortKeepsTies | astro/src/utils/post.ts:13 | the sort is stable: the elements with any one key come out in their input order |
| Collections.SortByKeyDescStable | astro/src/utils/post.ts:13 | the same, for all keys at once |
| Collections.SortedTiesUnique | astro/src/utils/post.ts:13 | two lists ordered by descending key with the same elements in the same order within each key are equal |
| Collections.SubsequenceKeepsOrder | astro/src/utils/post.ts:41 | filtering a sorted list keeps it sorted |
| Strings.SortStrings | astro/src/utils/post.ts:7 | sorting strings yields a permutation of the input that is non-decreasing in code-point order |
| Strings.SortSetAscending | scripts/utils.py:26 | `sorted` of a duplicate-free collection is strictly ascending and has the same members |
| Strings.AscendingUnique | scripts/utils.py:22-26 | two strictly ascending lists with the same members are equal, so sorting a set does not depend on the set's internal order |
| Strings.Lower | astro/src/utils/post.ts:46 | `toLowerCase` keeps the length, leaves no upper-case ASCII letter, and changes no other character |
| Strings.ContainsIff | scripts/utils.py:23 | `excluded in file` holds iff the text occurs at some position of the path |
| ScriptUtils.Command | scripts/utils.py:6-7 | `split()` yields only non-empty tokens free of whitespace |
| ScriptUtils.CommandOfWord | scripts/utils.py:6-7 | a word followed by nothing or by whitespace is the first argument, and the rest is split on its own |
| ScriptUtils.CommandOfSpaces | scripts/utils.py:6-7 | a command line of whitespace only gives no arguments |
| ScriptUtils.CommandAtSpace | scripts/utils.py:6-7 | splitting at any whitespace character gives the arguments of the part before it followed by those of the part after it |
| ScriptUtils.CommandJoin | scripts/utils.py:6-7 | splitting words joined by single spaces gives the words back |
| ScriptUtils.FindCommandLine | scripts/utils.py:15 | the scan's command line splits into the four arguments `find`, `./infra`, `-name`, `*.tf` |
| ScriptUtils.RStrip | scripts/utils.py:18 | `rstrip()` returns a prefix whose last character is not whitespace; only whitespace was removed |
| ScriptUtils.Split | scripts/utils.py:18 | `split(sep='\n')` yields at least one piece; no piece contains a newline, and joining the pieces with newlines rebuilds the text |
| ScriptUtils.SplitJoin | scripts/utils.py:18 | splitting newline-joined, newline-free pieces gives the pieces back |
| ScriptUtils.SplitLastPiece | scripts/utils.py:18 | the last piece is empty only when the text is empty or ends with the separator |
| ScriptUtils.ScanLines | scripts/utils.py:18 | the file list has at least one line, no line contains a newline, and joining the lines with newlines gives back the right-stripped output |
| ScriptUtils.NoTrailingEmptyLine | scripts/utils.py:18 | because the output is right-stripped first, output that contains anything besides whitespace yields a non-empty last line |
| ScriptUtils.ScanOfFindOutput | scripts/utils.py:15-18 | reading back `find`'s one-path-per-line output gives the paths, provided the last path does not end in whitespace |
| ScriptUtils.Dirname | scripts/utils.py:23 | `os.path.dirname` returns a prefix of the path that reaches at most to the last slash: empty when the path has no slash, otherwise non-empty. Only slashes lie between it and the last slash; it ends in a slash only when it is all slashes, and when everything up to the last slash is slashes it is that whole head |
| ScriptUtils.Excluded | scripts/utils.py:21-23 | a path is excluded iff `.terraform` occurs in it at some position |
| ScriptUtils.DirnameOfChild | scripts/utils.py:23 | the dirname of `dir/name` is `dir` |
| ScriptUtils.KeptWithoutDotTe | scripts/utils.py:21-23 | a path in which `.te` never occurs is not excluded |
| ScriptUtils.KeptFile | scripts/utils.py:21-23 | a file directly inside `dir` whose path has no `.te` is kept and contributes `dir` |
| ScriptUtils.DirnamesOf | scripts/utils.py:23 | the dirnames of a list of lines are exactly the dirnames of its members |
| ScriptUtils.Directories | scripts/utils.py:21-26 | the result is strictly ascending, and a directory is in it iff it is the dirname of a line containing no excluded name |
| ScriptUtils.FindTerraformDirectories | scripts/utils.py:18-26 | the same, for the lines read from the scan's output |
| ScriptUtils.ExcludedLineIgnored | scripts/utils.py:21-23 | adding, at any position, a line that contains `.terraform` anywhere does not change the result |
| ScriptUtils.DirectoryListedOnce | scripts/utils.py:22-26 | the directory of every kept file is listed, and no directory is listed twice |
| ScriptUtils.DirectoriesAre | scripts/utils.py:22-26 | the result is the only strictly ascending list of exactly the directories of the kept lines |
| ScriptUtils.EmptyScanGivesEmptyName | scripts/utils.py:18-26 | empty or all-whitespace output gives the one-element list `[""]` |
| ScriptUtils.TwoDirectories | scripts/utils.py:21-26 | two kept files in one directory, one kept file in a later directory and an excluded file give exactly the two directories, once each, in order |
| ScanExamples.ExampleDirectories | scripts/utils.py:21-26 | the lines `./infra/a/main.tf`, `./infra/a/vars.tf`, `./infra/b/main.tf` and `./infra/b/.terraform/cache.tf` give `["./infra/a", "./infra/b"]` |
| ScanExamples.TwoDirectoriesExample | scripts/utils.py:15-26 | the same tree, starting from the newline-terminated output of `find` |

## Left out

- Reading the content collection (`getCollection`, and the `async`/`await` around it) is not modelled. The collection is a parameter.
- Parsing `pubDate` with `new Date(...)` is not modelled: a date is an integer timestamp. An unparsable date, which makes the comparator return `NaN`, is out of scope.
- `localeCompare` depends on the locale's collation; the model sorts categories by code point instead. This is the same order Python's `sorted` uses on the directory names.
- `getPosts(max)` with a non-integer `max` is not modelled; `slice` would truncate it.
- `Object.entries` lists integer-like keys (a tag such as `"2024"`) first, in numeric order. The model lists every key in insertion order.
- Tag names that are inherited object properties (such as `constructor`) are not modelled: `acc[tag] || 0` would read the inherited value. The model's dictionary starts empty.
- Posts.GetTagsWithCount: does not state the order among tags with equal counts, which `Array.prototype.sort` keeps in insertion order.
- Strings.Lower: `toLowerCase` is modelled on ASCII letters only; other characters are left unchanged.
- `str.split()` and `str.rstrip()` use Python's whitespace set. Decoding the bytes as UTF-8 is not modelled; `stdout` is the decoded text.
- The two `os.chdir` calls, `os.path.abspath(__file__)` and running `find` as a subprocess are not modelled. The scan's output is the parameter `stdout`, so a missing `infra` directory or a failing `find` is also out of scope.
- `scripts/gha-argocd-create-pr.py` (a GitHub API call driven by environment variables) is not part of this model.
- `astro/astro.config.mjs`, `astro/src/components/mdx/ImageZoom.jsx` and `astro/src/pages/health-check.ts` are not part of this model. They are site configuration and UI components with no logic of their own.
