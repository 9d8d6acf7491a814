# Congress ages, modelled in Dafny

The page loads the current members of the United States Congress from the public
congress-legislators dataset. It turns each legislator record into a flat member record:
name, role ("Rep." or "Sen."), state, party, birth date and photo address. It then fills a
table with one row per member, oldest first. Each row shows the member's age and a status
label: "Too Old" from age 65 on, "Fit To Serve" below that.

This project models that core in Dafny:

- `calendar.dfy`, module `Calendar`: the calendar-age computation. Dates are explicit
  (year, month, day) triples, and "today" is a parameter instead of the clock.
- `members.dfy`, module `Members`: the projection of legislator records onto member
  records. The latest term is the last element of `terms`. A legislator without terms
  makes the projection stop with an error at that legislator's position.
- `table.dfy`, module `Table`: the table builder. A `TableBody` object holds the rows of
  the table body. The members array is sorted in place by age, oldest first, by a stable
  insertion sort. The sort is proved equal to a functional specification, `SortedByAge`.
  The lemmas about `SortedByAge` prove that it is a permutation, oldest first and stable.
  Then one row per member is appended in sorted order.
- `app.dfy`, module `App`: the top-level chain. Project, then build the table. A failed
  projection leaves the table untouched.

The latest term is the last element of the `terms` array (js/app.js:6), and a member is
labelled "Too Old" when `age >= 65` (js/app.js:47).

## Model

| member | source | states |
|---|---|---|
| `Calendar.CalculateAge` | js/app.js:19-28 | the age is the year difference or one less, and it is one less exactly when this year's birthday (month, then day) is still ahead |
| `Calendar.AgeIsLastAnniversary` | js/app.js:22-26 | the anniversary numbered by the age is on or before today, and the next anniversary is after today |
| `Calendar.AgeCharacterization` | js/app.js:22-26 | someone has turned `n` on today exactly when `n` is at most the computed age |
| `Calendar.AgeOnAnniversary` | js/app.js:22-26 | on the birthday itself the age is exactly the year difference |
| `Calendar.AgeMonotone` | js/app.js:19-28 | a later reference date never gives a smaller age |
| `Calendar.AgeNonNegative` | js/app.js:19-28 | a reference date on or after the birth date gives an age of at least zero |
| `Calendar.AgeAroundBirthday` | js/app.js:22-26 | born 15 March 1960: age 64 on 14 March 2025 and 65 on 15 March 2025 |
| `Members.FullName` | js/app.js:9 | the name is the first name, one space, then the last name |
| `Members.SplitFullName` | js/app.js:9 | when the first name has no space, splitting the joined name at its first space gives back the first and last names |
| `Members.LatestTerm` | js/app.js:6 | the latest term is the last element of the term list: the list is everything before it followed by it |
| `Members.Role` | js/app.js:10 | the role is "Rep." exactly when the term kind is "rep", and otherwise "Sen." |
| `Members.Project` | js/app.js:5-16 | for a legislator with a term: role, state and party come from the last term, the name is the first name, one space and the last name (and splits back into both when the first name has no space), and the birth date is copied |
| `Members.ProjectAll` | js/app.js:5-16 | succeeds exactly when every legislator has a term, and then yields one record per legislator, in order; otherwise it fails at the first legislator without terms |
| `Table.Age` | js/app.js:37 | a member's age on today is the year difference from the birth year, less one while this year's birthday is still ahead |
| `Table.StatusFor` | js/app.js:47 | the status is "Too Old" exactly when the age is at least 65, and "Fit To Serve" exactly when it is below 65 |
| `Table.RowFor` | js/app.js:37-47 | a row carries its member, the member's age on today, and "Too Old" exactly when that age is at least 65 |
| `Table.Rows` | js/app.js:36-50 | one row per member, in the members' order, row `i` built from member `i` |
| `Table.Insert` | js/app.js:34 | one step of the stable sort: the result is one longer than the input and contains the inserted member |
| `Table.SortedByAge` | js/app.js:34 | the stable oldest-first sort of the member list keeps its length; its order, permutation and stability are the lemmas below |
| `Table.SortedByAgePermutation` | js/app.js:34 | the sorted members are a permutation of the input |
| `Table.SortedByAgeOldestFirst` | js/app.js:34 | the sorted members are ordered by age, oldest first |
| `Table.SortedByAgeStable` | js/app.js:34 | for each age, the members of that age appear in the same relative order as in the input |
| `Table.SortedByAgeOfOldestFirst` | js/app.js:34 | members already ordered oldest first are left unchanged |
| `Table.TooOldRowsFirst` | js/app.js:34-49 | in a table listed oldest first, every "Too Old" row comes before every "Fit To Serve" row |
| `Table.TableBody.Clear` | js/app.js:31-32 | afterwards the table body holds no rows |
| `Table.TableBody.Append` | js/app.js:38-49 | the new row is added after the existing rows |
| `Table.InsertInPlace` | js/app.js:34 | the prefix `a[..i+1]` becomes `a[i]` stably inserted into the sorted prefix `a[..i]`, and the rest of the array is unchanged |
| `Table.SortByAge` | js/app.js:34 | the array afterwards equals `SortedByAge` of its old contents: a stable, oldest-first permutation |
| `Table.BuildTable` | js/app.js:30-51 | the members array ends up sorted oldest first, and the table body holds exactly one row per member in sorted order, with no earlier row left |
| `App.ShowCongressAges` | js/app.js:53-57 | fills the table exactly when every legislator has a term; otherwise the table body keeps its previous rows |

## Left out

- The `fetch` call and JSON parsing (js/app.js:2-3) are not modelled. They are network I/O, so the parsed dataset is an input.
- The `console.error` message on failure (js/app.js:55-56) is not modelled. The model returns `false` instead.
- DOM calls (`querySelector`, `innerHTML`, `createElement`, `appendChild`) and the HTML template (js/app.js:31-32, 38-48) are left out. The table body is modelled as its list of rows, and a row as the member record, the age and the status.
- The text of the cells is not modelled: the birth date as written, the image tag, and the number formatting. `Table.Label` gives the two status texts but has no contract.
- Date parsing and the clock (js/app.js:20-21) are left out. `new Date("YYYY-MM-DD")` reads the string as UTC midnight, but `getMonth` and `getDate` read local time, so some time zones shift the birth date by a day. Unparseable dates give `NaN`. The model takes parsed (year, month, day) triples and a `today` parameter.
- The comparator in js/app.js:34 reads the clock again on each call. The model uses one `today` for the whole sort and all the rows.
- Missing fields other than an empty `terms` list (no `name`, `bio` or `id`) are not modelled. In the code they also make the projection throw.
- The photo address (js/app.js:14) is built by plain concatenation and no property is stated about it.
- The code relies on the engine's `Array.prototype.sort`. ECMAScript requires that sort to be stable, and the model uses a stable insertion sort. The model proves that its result is a permutation, ordered oldest first and stable. It does not prove that these three properties fix the result uniquely.
