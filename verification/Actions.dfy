/** What the panel menu and the power schedule can do to the machine. */
module Actions {
  datatype Action = Shutdown | Restart
}
