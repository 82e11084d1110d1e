# Active Directory inventory plugin: resolve_reference

A Dafny model of the Bolt inventory plugin task `ActiveDirectoryInventory`.
The task looks up the computers of an Active Directory domain over LDAP and
returns them as inventory targets. The model covers the logic around the LDAP
client:

- **Option validation and defaulting.** `ad_domain` must be given and not
  empty. If it is missing, a `bolt.plugin/validation-error` is raised before
  any LDAP object exists. `domain_controller` falls back to `ad_domain`.
- **Connection settings.** The settings hash always has `host`. An `auth`
  entry `{method: simple, username, password}` is added in place only when
  both a user name and a password are given.
- **Search base.** `'dc=' + ad_domain.split('.').join(',dc=')`, with Ruby's
  `split` semantics: trailing empty fields are dropped.
- **Entry transform.** `map` plus `compact` over the search results. An entry
  is dropped when it has no `dnshostname` attribute or the value list is
  empty. Every other entry becomes `{name: dn, uri: first host name}`, in
  delivery order.
- **Task result.** `{value: targets}` (`targets` is `nil` when the bind
  fails) or `{_error: error}` for a raised task error.

The LDAP server is a value of type `Inventory.Directory`. Whether a bind
succeeds is a function of the connection settings. The entries a search
returns are a function of the search request. `ResolveReference` also
returns the list of LDAP interactions it performed (connect, bind, search)
in order. Its contract can therefore say that nothing is sent to the
directory when validation fails.

Files: `wrappers.dfy` (Option, Result), `domain_names.dfy` (split, join,
search base), `entries.dfy` (entry filter and map), `inventory.dfy`
(options, connection settings, `resolve_reference`, `task`).

Behaviour of the code that the model follows:

- A failed bind is not an error. `resolve_reference` returns `nil` and the
  task reports `{value: nil}`.
- The search filter is always `(objectCategory=computer)` with the attributes
  `dn` and `dNSHostName`. This file has no age filter, group filter, host name
  block list, time-stamp conversion or transport inference. Those belong to
  other versions of the plugin.
- A domain made only of dots (for example `..`) has no labels. Its search base
  is `dc=`, one component for zero labels. `SearchBaseComponents` therefore
  requires at least one label.

## Model

| member | source | states |
|---|---|---|
| DomainNames.DropTrailingEmpty | tasks/resolve_reference.rb:25 | The result is a prefix of the fields, every dropped field is empty, and the last kept field is not empty. |
| DomainNames.RubySplitSpec | tasks/resolve_reference.rb:25 | `split('.')` keeps every field up to the last non-empty one, drops only trailing empty fields, and no label holds a dot. |
| DomainNames.JoinSplitAll | tasks/resolve_reference.rb:25 | Joining all the fields of a string with the separator gives back the string, so no character is lost by splitting. |
| DomainNames.SplitAllJoin | tasks/resolve_reference.rb:25 | Splitting a join gives back the parts when none of them contains the separator. |
| DomainNames.SplitAllFields | tasks/resolve_reference.rb:25 | No field contains the separator, and every character of a field occurs in the split string. |
| DomainNames.PrefixedJoin | tasks/resolve_reference.rb:25 | `'dc=' + labels.join(',dc=')` equals the components `dc=<label>` joined by commas. |
| DomainNames.SearchBaseComponents | tasks/resolve_reference.rb:25 | For a domain with at least one label and no comma, the search base splits at commas into exactly one `dc=<label>` per label, in order. |
| DomainNames.BoltLocal | tasks/resolve_reference.rb:25 | `bolt.local` has the labels `bolt` and `local` and the search base `dc=bolt,dc=local`. |
| Entries.EntryToTarget | tasks/resolve_reference.rb:45-50 | An entry yields a target exactly when its `dnshostname` attribute exists and is non-empty. The target's `name` is the entry's DN and its `uri` is the first host name. |
| Entries.KeptIndices | tasks/resolve_reference.rb:44-51 | The kept positions are in range, strictly increasing, and each has a host name. Every entry with a host name is among them. |
| Entries.CompactAppend | tasks/resolve_reference.rb:51 | `compact` distributes over concatenation. |
| Entries.ResolveTargetsAppend | tasks/resolve_reference.rb:44-51 | Transforming two runs of entries one after the other gives the concatenation of their targets, so each entry is handled on its own and in order. |
| Entries.ResolveTargetsSingle | tasks/resolve_reference.rb:45-50 | One entry yields `[{name: dn, uri: first host name}]` when it has a host name, and nothing otherwise. |
| Entries.ResolveTargetsOrdered | tasks/resolve_reference.rb:44-51 | The output has one target per kept entry. The k-th target is built from the k-th kept entry, so order is preserved and each target comes from a distinct entry. |
| Entries.ResolveTargetsLength | tasks/resolve_reference.rb:44-51 | There are no more targets than entries. |
| Entries.KeptIndicesLength | tasks/resolve_reference.rb:44-51 | There are no more kept positions than entries. |
| Entries.AllKept | tasks/resolve_reference.rb:44-51 | When every entry has a host name, the output has one target per entry, position by position. |
| Entries.AllIndicesKept | tasks/resolve_reference.rb:44-51 | When every entry has a host name, every position is kept. |
| Entries.NoneKept | tasks/resolve_reference.rb:45-46 | When no entry has a host name, nothing is kept and the output is empty. |
| Inventory.ConnectionSettingsUnique | tasks/resolve_reference.rb:27-32 | The settings hash is fully determined by the host and the credentials given. |
| Inventory.BuildLdapProperties | tasks/resolve_reference.rb:27-32 | `host` is always set. `auth` (simple bind with the given user name and password) is present exactly when both are given. No other key is set. |
| Inventory.ResolveReference | tasks/resolve_reference.rb:18-53 | A missing or empty `ad_domain` raises the validation error and makes no LDAP call. Otherwise it connects to `domain_controller`, or to `ad_domain` when that is absent, then binds. After a failed bind it stops and yields `nil`. After a successful bind it makes one computer search under the derived base and yields the transformed entries. |
| Inventory.Task | tasks/resolve_reference.rb:55-62 | The validation error becomes the `_error` result. Otherwise the result is `value`: `nil` when the bind with the derived settings fails, else the targets found by the computer search. |

## Left out

- Loading the task helper library (tasks/resolve_reference.rb:4-14): file-system probing and `require_relative`.
- The LDAP client itself (`Net::LDAP.new`, `bind`, `search`, tasks/resolve_reference.rb:34-44): network I/O. It is replaced by the `Directory` value, which gives a bind outcome and a list of entries.
- A failed search: the client then returns `nil` instead of a list, and `.map` raises an error that `task` does not rescue. The model's search always yields a list of entries.
- The attribute-name lookup of the LDAP client: the requested `dNSHostName` is read back as `dnshostname`, and the model's `Entry` already carries that attribute under the lower-case name. An attribute that is present but `nil` cannot come from the client; it is folded into "absent".
- Option values that are neither strings nor `nil` (for example `false`): every option is modelled as either a string or absent, using Ruby truthiness where `nil` or absent means "not given".
- The serialisation of the task result and of `TaskHelper::Error#to_h`: code of the task helper library, which is not part of this model. The error is modelled as its message and kind.
- The manual-run entry point with hard-coded sample options and `puts` output (tasks/resolve_reference.rb:65-73).
