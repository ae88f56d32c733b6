# Go Package Store: a Dafny model of its core

Go Package Store lists the Go packages installed in a GOPATH, groups them by
the repository they are checked out in, and shows each repository whose local
revision is behind its remote. For repositories hosted on GitHub it shows the
home page, the owner's avatar and the commit messages between the two
revisions. On request it runs `go get -u` on a pattern, one request at a time.

This project models the sequential logic underneath the HTTP handlers:

- `packages.dfy`, module `GoPackages`: the package and repository values and
  the status line type.
- `main.dfy`, module `PackageStore`: the presentation predicate
  (`shouldPresentUpdate`), the loop that groups packages by root path, the
  emit pass that counts presentable repositories and writes the "no updates"
  marker, and the index handler from grouping to marker.
- `update_worker.dfy`, module `UpdateWorker`: the update worker, a single loop
  that serves update requests in submission order.
- `github.dfy`, module `Presenter`: the GitHub presenter (`Repo`, `HomePage`,
  `Image`, `Changes`) and `GithubComparison` with its `Update`.
- `wrappers.dfy`, module `Wrappers`: `Option`, standing for Go's nil.

The calls the core makes into code it does not contain are parameters of the
model:

- `util.GetRootPath` is `rootPathOf: GoPackage -> string`.
- The status line after `UpdateVcsFields` and `status.PlumbingPresenterV2` is
  `statusOf: GoPackage -> StatusLine`.
- `updater.Update` is `update: (W, string) -> (W, UpdateError)`. Here `W` is
  the workspace the updater changes.
- GitHub's `Repositories.CompareCommits` and `Users.Get` are `compareCommits`
  and `usersGet`.

Go does not fix the order in which a map is iterated. The handler's
iteration order over `goPackagesInRepo` is therefore the parameter
`iterationOrder`: any order that lists each root exactly once.

## Model

| member | source | states |
|---|---|---|
| `PackageStore.ShouldPresentUpdate` | main.go:47-49 | A package is presented exactly when its status line's first three characters are blank, blank, '+'. |
| `PackageStore.ShouldPresentUpdateIgnoresTail` | main.go:48 | Two status lines that agree on their first three characters get the same answer, so the stash column and the rest are ignored. |
| `PackageStore.GroupByRootPath` | main.go:129-137 | The map's keys are exactly the non-empty root paths of the input, so "" is never a key. Each key holds exactly the input packages with that root path, in input order. Every group is non-empty. Every package in the group of `k` has root path `k`. The groups together hold as many packages as the input has packages with a non-empty root. |
| `PackageStore.MembersHaveRoot` | main.go:133-136 | Every package stored under root `k` comes from the input list and has root path `k`. |
| `PackageStore.MembersNonEmpty` | main.go:134-135 | The group of every root that some package has is non-empty, because an entry is only created by an append. |
| `PackageStore.MembersEmptyOutsideRoots` | main.go:134-135 | No package is stored under a non-empty root that no input package has. |
| `PackageStore.MembersKeepInputOrder` | main.go:133-135 | A group is the input restricted to the ascending indices whose root path is `k`. Every such index is used, so packages keep their relative input order. |
| `PackageStore.TotalSizeUpdate` | main.go:135 | Replacing one group changes the total number of grouped packages by the change in that group's size. |
| `PackageStore.EmitUpdates` | main.go:168-223 | The repositories written are those whose first package satisfies the presentation predicate, in the order taken. `updatesAvailable` is their number. The "no updates" marker is written if and only if that number is 0, that is, if and only if no repository has an update. |
| `PackageStore.PresentableMembers` | main.go:180-187 | A repository is written if and only if it is among the input repositories and its first package should be presented. |
| `PackageStore.PresentableEmptyIff` | main.go:191-223 | Nothing is written if and only if no repository's first package should be presented. |
| `PackageStore.PresentableAppend` | main.go:172-191 | Filtering a concatenation filters each part and concatenates the results. |
| `PackageStore.PresentableOrderIndependent` | main.go:170-191 | Two orderings of the same repositories present the same multiset of repositories, so the map's iteration order does not change what is shown. |
| `PackageStore.PresentedCountOrderIndependent` | main.go:168-196 | `updatesAvailable` is the same for every iteration order of the map. |
| `PackageStore.DistinctRootsCount` | main.go:172-196 | When the repositories have distinct roots, the number written equals the number of distinct roots written. |
| `PackageStore.ShownRootsAreUpdatedRoots` | main.go:172-183 | Visiting every root once, the roots written are exactly those whose first grouped package should be presented. |
| `PackageStore.RepositoriesInOrder` | main.go:171-176 | One repository per map entry, in iteration order, each carrying that entry's root path and packages. |
| `PackageStore.PresentableKeepsDistinctRoots` | main.go:172-191 | When the repositories fed to the pass have distinct roots, so do the repositories written. No root is written twice. |
| `PackageStore.ShownRootsOfPresentable` | main.go:180-196 | The roots of the repositories written are exactly the roots of the input repositories that have an update. |
| `PackageStore.MainHandler` | main.go:128-223 | Every repository written is a root of the input with its full group, and its first package should be presented. Every root whose first package should be presented is written, and no root is written twice. `updatesAvailable` equals the number of such roots. The marker is written if and only if that count is 0. |
| `UpdateWorker.RunUpdateWorker` | main.go:84-90 | The worker's final workspace and the results it sends, in order, are those of serving the requests one at a time in submission order. |
| `UpdateWorker.ServeCallsUpdaterOncePerRequest` | main.go:85-87 | With an updater that only logs its argument, the log is the requests' patterns in submission order. So the updater is called exactly once per request, with that request's pattern. |
| `UpdateWorker.ServeAnswersEachRequest` | main.go:85-87 | Request i gets exactly one result, on its own result channel. That result is the updater's answer for its pattern on the workspace left by the requests before it. |
| `UpdateWorker.ServeSequential` | main.go:84-89 | Serving `a` and then `b` is the same as serving `a + b`, so no request starts before every earlier request has its result. |
| `UpdateWorker.ServeFulfilsEachChannelOnce` | main.go:75-78 | When each request has its own result channel, every channel receives exactly one result. |
| `Presenter.GitHubPresenter.Image` | presenter/github.go:38-44 | The owner's avatar URL when `Users.Get` succeeds and the URL is non-nil. Otherwise the fixed `gravatar-user-420.png` placeholder. |
| `Presenter.GitHubPresenter.HomePage` | presenter/github.go:33-36 | The home page is a `https://github.com/` URL. When the owner has no '/', the owner and the repository name can be read back from it. |
| `Presenter.HomePageRoundTrip` | presenter/github.go:34 | For an owner without '/', `https://github.com/` + owner + `/` + repo parses back to that owner and repository. |
| `Presenter.GitHubPresenter.Changes` | presenter/github.go:46-58 | Absent when the comparison error is set. Otherwise exactly `len(Commits)` changes, change i being the message of commit `len(Commits)-1-i`, that is, the commit messages reversed. |
| `Presenter.ReverseAt` | presenter/github.go:52-53 | Reversal keeps the length, and element i of the reversal is element `len-1-i`. |
| `Presenter.ReverseReverse` | presenter/github.go:52-53 | Reversing the change list again gives back the commit order of the comparison. |
| `Presenter.GithubComparison.constructor` | presenter/github.go:64-68 | The comparison records the owner and repository, with the local revision as source 0 and the remote revision as source 1. |
| `Presenter.GithubComparison.Update` | presenter/github.go:80-85 | `cc` and `err` become the answer of CompareCommits(owner, repo, base = local revision, head = remote revision). |
| `Presenter.NewGitHubPresenter` | presenter/github.go:20-31 | `Repo()` of the presenter returns the repository it was built for (github.go:29-31). The presenter keeps the owner and repository name. Its comparison is new, is for that same owner and repository, and uses the first package's local and remote revisions. It is brought up to date once. |

## Left out

- HTTP handlers, response headers, flushing, templates (`loadTemplates`, `commonHead`, `commonTail`, `writeRepoHTML`), the WebSocket handler, flags, opening a browser, and timing and debug output. These are I/O and UI. What is written to the page is modelled as the sequence `written` of repositories and the boolean `noUpdates`.
- The concurrent fan-out of `gist7651991.GoReduce`, both in the disabled `else` branch of the grouping and in the status pass. The pass is modelled as a sequential filter in iteration order. In the source the output order is completion order. The lemmas on order independence show that what is shown and how many does not depend on order.
- `universe.Wait` and the `goUniverse` cache are not part of this model.
- `gist7802150.MakeUpdated` and `DepNode2`'s tracking of stale sources: the model calls `Update` once when the presenter is built, and the comparison's sources are fixed at that point.
- `util.GetRootPath`, `UpdateVcsFields`, `status.PlumbingPresenterV2`, the GitHub client and `updater.Update` are parameters. Their own behaviour is not modelled. `presenter.New` (the choice of presenter for a repository) is not part of this model: the emit pass never builds a presenter. The "clean tree, default branch, remote revision not present" rule lives inside `status.PlumbingPresenterV2`. The model follows the code's test on the status line's first three characters.
- The request and result channels and the goroutine in `Changes`. The worker is a loop over the sequence of submitted requests, and a delivery records the channel a result is sent on. `Changes` returns the finished list rather than a channel that is read lazily.
- `updateHandler`'s POST check and form parsing. Starting the worker only when an updater exists (main.go:307-310) is configuration.
- The choice of package source in `main()` is configuration and I/O.
- `PackageStore.ShouldPresentUpdate`: Go's `[:3]` would panic on a status line shorter than three characters. The status line type guarantees at least three characters, so that panic is not modelled.
- `Presenter.GitHubPresenter.Changes`: with a nil error and a nil comparison, Go would dereference nil. The model requires a comparison whenever the error is nil. Commit messages are plain strings, so a nil `Message` pointer is not modelled.
- `Presenter.NewGitHubPresenter`: `Repo()` returns a pointer in Go. The model returns the repository value, so aliasing is not captured.
- `PackageStore.EmitUpdates`: assumes `presenter.New` returns a presenter for every repository whose first package should be presented. In main.go:186-196 a nil presenter would be dropped by `GoReduce`, so that repository would be neither written nor counted. The source of `presenter.New` is not part of this model.
- `PackageStore.MainHandler`: rests on the same assumption about `presenter.New`. A nil presenter would make `written` and `updatesAvailable` smaller than `UpdatedRoots`.
- `PackageStore.EmitUpdates`: Go indexes `GoPackages()[0]`, which would panic on an empty repository. The model requires every repository to be non-empty. The grouping guarantees this, and `MainHandler` proves it.
